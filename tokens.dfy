/**
 The Authorization header handling of the service: Python's `str.startswith`
 and `str.replace(pat, "")`, and the token extraction built from them.
 */
module Tokens {

  /** The literal that a bearer-style Authorization header starts with. */
  const Bearer: string := "Bearer "

  /** `pat` occurs in `s` starting at index `i`. */
  predicate OccursAt(s: string, pat: string, i: nat)
  {
    i + |pat| <= |s| && s[i..i + |pat|] == pat
  }

  /** Python's `s.startswith(pat)`: `s` is `pat` followed by something. */
  function StartsWith(s: string, pat: string): (r: bool)
    ensures r <==> exists rest :: s == pat + rest
  {
    assert |pat| <= |s| ==> s == s[..|pat|] + s[|pat|..];
    |pat| <= |s| && s[..|pat|] == pat
  }

  /**
   Python's `s.replace(pat, "")` for a non-empty `pat`: scanning from the left,
   every occurrence that does not overlap an earlier removed one is deleted.
   */
  function RemoveAll(s: string, pat: string): (r: string)
    requires pat != []
    ensures |r| <= |s|
    ensures |s| < |pat| ==> r == s
    decreases |s|
  {
    if |s| < |pat| then s
    else if s[..|pat|] == pat then RemoveAll(s[|pat|..], pat)
    else [s[0]] + RemoveAll(s[1..], pat)
  }

  /** An occurrence at `j + 1` in `s` is one at `j` in the tail of `s`. */
  lemma OccursAtTail(s: string, pat: string, j: nat)
    requires s != []
    ensures OccursAt(s, pat, j + 1) == OccursAt(s[1..], pat, j)
  {
    if j + 1 + |pat| <= |s| {
      assert s[1..][j..j + |pat|] == s[j + 1..j + 1 + |pat|];
    }
  }

  /** Where `pat` does not start the string, its first character is kept. */
  lemma RemoveAllKeepsHead(s: string, pat: string)
    requires pat != [] && s != [] && !OccursAt(s, pat, 0)
    ensures RemoveAll(s, pat) == [s[0]] + RemoveAll(s[1..], pat)
  {
    if |s| < |pat| {
      RemoveAllShort(s[1..], pat);
      assert s == [s[0]] + s[1..];
    }
  }

  /** A string shorter than `pat` is left as it is. */
  lemma RemoveAllShort(s: string, pat: string)
    requires pat != [] && |s| < |pat|
    ensures RemoveAll(s, pat) == s
  {
  }

  /** No occurrence in `s` before `i` means none in its tail before `i - 1`. */
  lemma NoOccurrenceInTail(s: string, pat: string, i: nat)
    requires s != []
    requires forall j: nat :: j < i ==> !OccursAt(s, pat, j)
    ensures forall j: nat :: j + 1 < i ==> !OccursAt(s[1..], pat, j)
  {
    forall j: nat | j + 1 < i ensures !OccursAt(s[1..], pat, j) {
      OccursAtTail(s, pat, j);
    }
  }

  /** A string in which `pat` does not occur is left as it is. */
  lemma {:induction false} RemoveAllNoOccurrence(s: string, pat: string)
    requires pat != []
    requires forall i: nat :: !OccursAt(s, pat, i)
    ensures RemoveAll(s, pat) == s
    decreases |s|
  {
    if s != [] {
      RemoveAllKeepsHead(s, pat);
      forall i: nat ensures !OccursAt(s[1..], pat, i) {
        OccursAtTail(s, pat, i);
      }
      RemoveAllNoOccurrence(s[1..], pat);
      assert s == [s[0]] + s[1..];
    }
  }

  /** Keeping the head of `s` in front of the first `i - 1` characters of its tail. */
  lemma PrependSplit(s: string, i: nat, rest: string)
    requires 0 < i <= |s|
    ensures [s[0]] + (s[1..][..i - 1] + rest) == s[..i] + rest
  {
    assert [s[0]] + s[1..][..i - 1] == s[..i];
  }

  /**
   The leftmost occurrence of `pat` is deleted and the scan resumes right
   after it: together with RemoveAllNoOccurrence this pins down RemoveAll as
   "delete every non-overlapping occurrence, leftmost first".
   */
  lemma {:induction false} RemoveAllLeftmost(s: string, pat: string, i: nat)
    requires pat != []
    requires OccursAt(s, pat, i)
    requires forall j: nat :: j < i ==> !OccursAt(s, pat, j)
    ensures RemoveAll(s, pat) == s[..i] + RemoveAll(s[i + |pat|..], pat)
    decreases i
  {
    if i == 0 {
      calc {
        RemoveAll(s, pat);
        { assert s[..|pat|] == pat; }
        RemoveAll(s[|pat|..], pat);
        { assert s[..0] == []; }
        s[..0] + RemoveAll(s[|pat|..], pat);
      }
    } else {
      var t := s[1..];
      var rest := RemoveAll(s[i + |pat|..], pat);
      assert t[i - 1 + |pat|..] == s[i + |pat|..];
      assert RemoveAll(t, pat) == t[..i - 1] + rest by {
        OccursAtTail(s, pat, i - 1);
        NoOccurrenceInTail(s, pat, i);
        RemoveAllLeftmost(t, pat, i - 1);
      }
      calc {
        RemoveAll(s, pat);
        { assert !OccursAt(s, pat, 0);
          RemoveAllKeepsHead(s, pat); }
        [s[0]] + RemoveAll(t, pat);
        [s[0]] + (t[..i - 1] + rest);
        { PrependSplit(s, i, rest); }
        s[..i] + rest;
      }
    }
  }

  /** A leading `pat` is always one of the removed occurrences. */
  lemma RemoveAllPrefix(pat: string, t: string)
    requires pat != []
    ensures RemoveAll(pat + t, pat) == RemoveAll(t, pat)
  {
    assert (pat + t)[..|pat|] == pat;
    assert (pat + t)[|pat|..] == t;
  }

  /**
   The token carried by an Authorization header value (app.py lines 50 and 139):
   a value starting with "Bearer " has every occurrence of "Bearer " removed,
   any other value is the token itself.
   */
  function ExtractToken(header: string): (token: string)
    ensures !StartsWith(header, Bearer) ==> token == header
    ensures StartsWith(header, Bearer) ==>
              token == RemoveAll(header[|Bearer|..], Bearer) && |token| <= |header| - |Bearer|
  {
    if StartsWith(header, Bearer) then
      assert header == Bearer + header[|Bearer|..];
      RemoveAllPrefix(Bearer, header[|Bearer|..]);
      RemoveAll(header, Bearer)
    else
      header
  }

  /** A header "Bearer " + rest carries rest with every "Bearer " removed. */
  lemma ExtractBearerPrefix(rest: string)
    ensures ExtractToken(Bearer + rest) == RemoveAll(rest, Bearer)
  {
    assert (Bearer + rest)[..|Bearer|] == Bearer;
    assert (Bearer + rest)[|Bearer|..] == rest;
  }

  /** A string in which "Bearer " does not occur. */
  ghost predicate BearerFree(t: string)
  {
    forall i: nat :: !OccursAt(t, Bearer, i)
  }

  /** "Bearer " followed by a token that does not contain it yields that token. */
  lemma ExtractBearerToken(t: string)
    requires BearerFree(t)
    ensures ExtractToken(Bearer + t) == t
  {
    assert (Bearer + t)[|Bearer|..] == t;
    assert StartsWith(Bearer + t, Bearer);
    RemoveAllNoOccurrence(t, Bearer);
  }

  /** A raw token that does not contain "Bearer " is used unchanged. */
  lemma ExtractRawToken(t: string)
    requires BearerFree(t)
    ensures ExtractToken(t) == t
  {
    if StartsWith(t, Bearer) {
      assert OccursAt(t, Bearer, 0);
    }
  }

  /** The characters `secrets.token_hex` produces. */
  predicate IsHexDigit(c: char)
  {
    '0' <= c <= '9' || 'a' <= c <= 'f'
  }

  /** A value of `secrets.token_hex(16)`: 32 lower-case hexadecimal digits. */
  predicate IsHexToken(t: string)
  {
    |t| == 32 && forall k :: 0 <= k < |t| ==> IsHexDigit(t[k])
  }

  /** A hex token never contains "Bearer " (its first letter 'B' is not a hex digit). */
  lemma HexTokenBearerFree(t: string)
    requires IsHexToken(t)
    ensures BearerFree(t)
  {
    forall i: nat ensures !OccursAt(t, Bearer, i) {
      if i + |Bearer| <= |t| {
        assert IsHexDigit(t[i]);
        assert t[i..i + |Bearer|][0] != Bearer[0];
      }
    }
  }

  /**
   Not only the leading "Bearer " is removed: one further inside the header
   is removed too, so "Bearer " + a + "Bearer " + b carries the token a + b.
   */
  lemma InnerOccurrenceRemoved(a: string, b: string)
    requires forall k :: 0 <= k < |a| ==> a[k] != 'B'
    requires BearerFree(b)
    ensures ExtractToken(Bearer + a + Bearer + b) == a + b
  {
    var rest := a + Bearer + b;
    assert Bearer + a + Bearer + b == Bearer + rest;
    ExtractBearerPrefix(rest);
    assert rest[|a|..|a| + |Bearer|] == Bearer;
    forall j: nat | j < |a| ensures !OccursAt(rest, Bearer, j) {
      assert rest[j] == a[j];
      if j + |Bearer| <= |rest| {
        assert rest[j..j + |Bearer|][0] != Bearer[0];
      }
    }
    RemoveAllLeftmost(rest, Bearer, |a|);
    assert rest[..|a|] == a;
    assert rest[|a| + |Bearer|..] == b;
    RemoveAllNoOccurrence(b, Bearer);
  }

  /** A doubled prefix is stripped to the bare token. */
  lemma DoubledPrefixStripped(t: string)
    requires BearerFree(t)
    ensures ExtractToken(Bearer + Bearer + t) == t
  {
    assert (Bearer + Bearer + t)[|Bearer|..] == Bearer + t;
    assert StartsWith(Bearer + Bearer + t, Bearer);
    RemoveAllPrefix(Bearer, t);
    RemoveAllNoOccurrence(t, Bearer);
  }

  /**
   Removal is not idempotent: deleting the middle "Bearer " of
   "BBearer earer " joins its neighbours into a new "Bearer ".
   */
  lemma RemoveAllNotIdempotent()
    ensures RemoveAll("BBearer earer ", Bearer) == Bearer
    ensures RemoveAll(Bearer, Bearer) == ""
  {
    var s := "BBearer earer ";
    assert OccursAt(s, Bearer, 1);
    assert s[..|Bearer|][1] != Bearer[1];
    RemoveAllLeftmost(s, Bearer, 1);
    assert s[1 + |Bearer|..] == "earer ";
    assert s[..1] == "B";
    assert RemoveAll("earer ", Bearer) == "earer ";
    assert "B" + "earer " == Bearer;
    assert Bearer[..|Bearer|] == Bearer;
    assert Bearer[|Bearer|..] == "";
  }
}
