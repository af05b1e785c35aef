/**
  Character-level string operations the pipeline applies to column names and
  cell text: Python's `str.strip()` and `str.lower()` restricted to ASCII, and
  `str.replace(c, '')` for the marker characters 'b' and 'p'.
 */
module Text {

  /** Python's `str.isspace()` on ASCII: space, \t \n \v \f \r and the
      separators \x1c..\x1f. */
  predicate IsSpace(c: char) {
    c == ' ' || 9 <= c as int <= 13 || 28 <= c as int <= 31
  }

  predicate IsUpper(c: char) {
    'A' <= c <= 'Z'
  }

  function LowerChar(c: char): (d: char)
    ensures !IsUpper(d)
    ensures IsSpace(d) <==> IsSpace(c)
    ensures IsUpper(c) ==> d as int == c as int + 32
    ensures !IsUpper(c) ==> d == c
  {
    if IsUpper(c) then (c as int + 32) as char else c
  }

  /** No whitespace at either end: what `strip()` guarantees. */
  predicate IsStripped(s: string) {
    s == [] || (!IsSpace(s[0]) && !IsSpace(s[|s| - 1]))
  }

  /** A column name as the header step leaves it. */
  predicate IsNormalName(s: string) {
    IsStripped(s) && forall i :: 0 <= i < |s| ==> !IsUpper(s[i])
  }

  /** `lstrip()`: the longest suffix that does not start with whitespace. */
  function TrimStart(s: string): (r: string)
    ensures |r| <= |s| && r == s[|s| - |r|..]
    ensures forall i :: 0 <= i < |s| - |r| ==> IsSpace(s[i])
    ensures r == [] || !IsSpace(r[0])
    decreases |s|
  {
    if |s| > 0 && IsSpace(s[0]) then TrimStart(s[1..]) else s
  }

  /** `rstrip()`: the longest prefix that does not end with whitespace. */
  function TrimEnd(s: string): (r: string)
    ensures |r| <= |s| && r == s[..|r|]
    ensures forall i :: |r| <= i < |s| ==> IsSpace(s[i])
    ensures r == [] || !IsSpace(r[|r| - 1])
    decreases |s|
  {
    if |s| > 0 && IsSpace(s[|s| - 1]) then TrimEnd(s[..|s| - 1]) else s
  }

  /** `strip()`: neither end of the result is whitespace. */
  function Strip(s: string): (r: string)
    ensures IsStripped(r)
  {
    var front := TrimStart(s);
    var r := TrimEnd(front);
    assert r != [] ==> r[0] == front[0];
    r
  }

  /** What `strip()` removes: the result is a contiguous piece of `s`, and
      everything cut off on either side of it is whitespace. */
  lemma StripCuts(s: string)
    ensures var r := Strip(s);
            var i := |s| - |TrimStart(s)|;
            && i + |r| <= |s| && r == s[i..i + |r|]
            && (forall k :: 0 <= k < i ==> IsSpace(s[k]))
            && (forall k :: i + |r| <= k < |s| ==> IsSpace(s[k]))
  {
    var front := TrimStart(s);
    var r := TrimEnd(front);
    var i := |s| - |front|;
    assert Strip(s) == r;
    PrefixOfSuffix(s, i, |r|);
  }

  /** A prefix of a suffix is a slice, and what follows it in the suffix
      follows it in the whole. */
  lemma PrefixOfSuffix(s: string, i: nat, n: nat)
    requires i + n <= |s|
    ensures s[i..][..n] == s[i..i + n]
    ensures forall k :: i + n <= k < |s| ==> s[k] == s[i..][k - i]
  {
  }

  /** `lower()`, ASCII letters only: no uppercase letter is left, and only
      the uppercase letters change. */
  function Lower(s: string): (r: string)
    ensures |r| == |s|
    ensures forall i :: 0 <= i < |r| ==> !IsUpper(r[i])
    ensures forall i :: 0 <= i < |s| ==> (r[i] == s[i] <==> !IsUpper(s[i]))
    ensures forall i :: 0 <= i < |s| ==> r[i] == LowerChar(s[i])
  {
    seq(|s|, i requires 0 <= i < |s| => LowerChar(s[i]))
  }

  /** `col.strip().lower()`. */
  function NormalizeName(s: string): (r: string)
    ensures IsNormalName(r)
  {
    Lower(Strip(s))
  }

  lemma StripStripped(s: string)
    requires IsStripped(s)
    ensures Strip(s) == s
  {
  }

  lemma LowerNoUpper(s: string)
    requires forall i :: 0 <= i < |s| ==> !IsUpper(s[i])
    ensures Lower(s) == s
  {
  }

  /** A name is left alone by normalisation exactly when it is already
      normal; hence normalising twice is normalising once. */
  lemma NormalizeNameFixpoint(s: string)
    ensures NormalizeName(s) == s <==> IsNormalName(s)
  {
    if IsNormalName(s) {
      StripStripped(s);
      LowerNoUpper(s);
    }
  }

  lemma NormalizeNameIdempotent(s: string)
    ensures NormalizeName(NormalizeName(s)) == NormalizeName(s)
  {
    NormalizeNameFixpoint(NormalizeName(s));
  }

  // ---------------------------------------------------------------------------
  // Marker characters

  predicate IsMarker(c: char) {
    c == 'b' || c == 'p'
  }

  predicate HasNoMarker(s: string) {
    forall i :: 0 <= i < |s| ==> !IsMarker(s[i])
  }

  /** `s.replace(c, '')`: every occurrence of `c` is deleted, the other
      characters keep their number and order. */
  function RemoveChar(s: string, c: char): (r: string)
    ensures c !in r
    ensures forall x :: x != c ==> multiset(r)[x] == multiset(s)[x]
    ensures c !in s ==> r == s
  {
    if s == [] then []
    else
      assert s == [s[0]] + s[1..];
      (if s[0] == c then [] else [s[0]]) + RemoveChar(s[1..], c)
  }

  /** The cell transformation of `clean_columns`:
      `.str.replace('b', '').str.replace('p', '')`. */
  function StripMarkers(s: string): (r: string)
    ensures HasNoMarker(r)
    ensures forall x :: !IsMarker(x) ==> multiset(r)[x] == multiset(s)[x]
  {
    var r := RemoveChar(RemoveChar(s, 'b'), 'p');
    assert forall i :: 0 <= i < |r| ==> r[i] in multiset(r);
    r
  }

  /** Reference definition: one pass that keeps the non-marker characters
      in order. */
  function KeepNonMarkers(s: string): string {
    if s == [] then []
    else (if IsMarker(s[0]) then [] else [s[0]]) + KeepNonMarkers(s[1..])
  }

  lemma {:induction false} RemoveCharAppend(a: string, b: string, c: char)
    ensures RemoveChar(a + b, c) == RemoveChar(a, c) + RemoveChar(b, c)
    decreases |a|
  {
    if a == [] {
      assert a + b == b;
    } else {
      assert (a + b)[1..] == a[1..] + b;
      RemoveCharAppend(a[1..], b, c);
    }
  }

  /** The two successive replaces delete exactly the marker characters and
      keep every other character in its original order. */
  lemma {:induction false} StripMarkersKeepsNonMarkers(s: string)
    ensures StripMarkers(s) == KeepNonMarkers(s)
    decreases |s|
  {
    if s != [] {
      var head := if s[0] == 'b' then [] else [s[0]];
      assert RemoveChar(s, 'b') == head + RemoveChar(s[1..], 'b');
      RemoveCharAppend(head, RemoveChar(s[1..], 'b'), 'p');
      StripMarkersKeepsNonMarkers(s[1..]);
    }
  }

  /** Stripping is a no-op on text without markers ... */
  lemma StripMarkersNoMarkers(s: string)
    requires HasNoMarker(s)
    ensures StripMarkers(s) == s
  {
    assert 'b' !in s && 'p' !in s;
  }

  /** ... so stripping twice is stripping once. */
  lemma StripMarkersIdempotent(s: string)
    ensures StripMarkers(StripMarkers(s)) == StripMarkers(s)
  {
    StripMarkersNoMarkers(StripMarkers(s));
  }
}
