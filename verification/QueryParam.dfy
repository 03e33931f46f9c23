/** Finding a parameter's value in a request path by scanning with a pointer. */
module QueryParam {
  import opened Wrappers

  /** A C string is the characters before its NUL; this is what a pointer at offset i reads. */
  function At(s: string, i: nat): char
    requires i <= |s|
  {
    if i < |s| then s[i] else '\0'
  }

  ghost predicate CString(s: string) {
    forall i | 0 <= i < |s| :: s[i] != '\0'
  }

  /** strchr for a character other than NUL: its first offset from i on. */
  function StrChr(s: string, i: nat, c: char): (r: Option<nat>)
    requires i <= |s|
    ensures r.Some? ==> i <= r.value < |s| && s[r.value] == c && forall k | i <= k < r.value :: s[k] != c
    ensures r.None? ==> forall k | i <= k < |s| :: s[k] != c
    decreases |s| - i
  {
    if i == |s| then None
    else if s[i] == c then Some(i)
    else StrChr(s, i + 1, c)
  }

  function Lower(c: char): char {
    if 'A' <= c <= 'Z' then c + ' ' else c
  }

  /** Characters match when they are equal or the two cases of one ASCII letter. */
  lemma LowerMeaning(a: char, b: char)
    ensures Lower(a) == Lower(b) <==>
      || a == b
      || ('A' <= a <= 'Z' && b as int == a as int + 32)
      || ('A' <= b <= 'Z' && a as int == b as int + 32)
  {
  }

  /** strncasecmp over the length of the key: it stops at the first difference, so never reads past a NUL. */
  predicate SameLetters(s: string, i: nat, key: string): (same: bool)
    requires i <= |s|
    ensures same ==> i + |key| <= |s|
  {
    i + |key| <= |s| && forall k | 0 <= k < |key| :: Lower(s[i + k]) == Lower(key[k])
  }

  /** The key and an equals sign stand at offset i. */
  predicate KeyAt(s: string, i: nat, key: string)
    requires i <= |s|
  {
    SameLetters(s, i, key) && At(s, i + |key|) == '='
  }

  /** Where the segment at i ends. */
  function EndOf(s: string, i: nat): (e: nat)
    requires i <= |s|
    ensures i <= e <= |s| && forall k | i <= k < e :: s[k] != '&'
    ensures e < |s| ==> s[e] == '&'
  {
    match StrChr(s, i, '&')
    case Some(e) => e
    case None => |s|
  }

  /** An offset and a length within the path. */
  datatype Slice = Slice(start: nat, length: nat)

  /** The value at the first segment start, from i on, at which the key stands. */
  function ValueFrom(s: string, i: nat, key: string): Option<Slice>
    requires i <= |s|
    decreases |s| - i
  {
    if i == |s| then None
    else if KeyAt(s, i, key) then
      var start := i + |key| + 1;
      Some(Slice(start, EndOf(s, start) - start))
    else
      var e := EndOf(s, i);
      if e == |s| then None else ValueFrom(s, e + 1, key)
  }

  function Lookup(path: string, key: string): Option<Slice> {
    match StrChr(path, 0, '?')
    case None => None
    case Some(q) => ValueFrom(path, q + 1, key)
  }

  lemma FoundAt(s: string, i: nat, key: string)
    requires i < |s| && KeyAt(s, i, key)
    ensures var start := i + |key| + 1;
      && start <= |s|
      && (StrChr(s, start, '&').None? ==> ValueFrom(s, i, key) == Some(Slice(start, |s| - start)))
      && (StrChr(s, start, '&').Some? ==>
        ValueFrom(s, i, key) == Some(Slice(start, StrChr(s, start, '&').value - start)))
  {
  }

  lemma NotAt(s: string, i: nat, key: string)
    requires i < |s| && !KeyAt(s, i, key)
    ensures StrChr(s, i, '&').None? ==> ValueFrom(s, i, key).None?
    ensures StrChr(s, i, '&').Some? ==> ValueFrom(s, i, key) == ValueFrom(s, StrChr(s, i, '&').value + 1, key)
  {
  }

  lemma NoneAtEnd(s: string, key: string)
    ensures ValueFrom(s, |s|, key).None?
  {
  }

  method QueryParamValue(path: string, key: string) returns (value: Option<Slice>)
    requires CString(path) && CString(key)
    ensures value == Lookup(path, key)
  {
    hide StrChr, ValueFrom, EndOf, KeyAt, SameLetters;
    var q := StrChr(path, 0, '?');
    if q.None? {
      return None;
    }
    var p := q.value + 1;
    while At(path, p) != '\0'
      invariant p <= |path| && Lookup(path, key) == ValueFrom(path, p, key)
      decreases |path| - p
    {
      hide Lookup;
      if KeyAt(path, p, key) {
        FoundAt(path, p, key);
        p := p + |key| + 1;
        var end := StrChr(path, p, '&');
        if end.Some? {
          return Some(Slice(p, end.value - p));
        }
        return Some(Slice(p, |path| - p));
      }
      NotAt(path, p, key);
      var amp := StrChr(path, p, '&');
      if amp.None? {
        return None;
      }
      p := amp.value + 1;
    }
    hide Lookup;
    NoneAtEnd(path, key);
    return None;
  }

  // ----- the simple parse -----

  function Segments(s: string): (r: seq<string>)
    ensures r != []
  {
    var e := EndOf(s, 0);
    [s[..e]] + if e < |s| then Segments(s[e + 1..]) else []
  }

  function Joined(segments: seq<string>): string {
    if segments == [] then "" else if |segments| == 1 then segments[0] else segments[0] + "&" + Joined(segments[1..])
  }

  lemma {:induction false} SegmentsAreExact(s: string)
    ensures Joined(Segments(s)) == s && forall segment | segment in Segments(s) :: '&' !in segment
  {
    var e := EndOf(s, 0);
    if e < |s| {
      SegmentsAreExact(s[e + 1..]);
      hide EndOf, Segments;
      assert s == s[..e] + "&" + s[e + 1..];
    }
  }

  /** A segment that assigns the key. */
  predicate Assigns(segment: string, key: string) {
    KeyAt(segment, 0, key)
  }

  function ValueIn(segments: seq<string>, key: string): Option<string> {
    if segments == [] then None
    else if Assigns(segments[0], key) then Some(segments[0][|key| + 1..])
    else ValueIn(segments[1..], key)
  }

  /** What stands at an offset of the path is what stands in the rest of it. */
  lemma EndAtRest(s: string, i: nat, j: nat)
    requires i + j <= |s|
    ensures EndOf(s, i + j) == i + EndOf(s[i..], j)
  {
  }

  lemma KeyAtRest(s: string, i: nat, key: string)
    requires i <= |s|
    ensures KeyAt(s, i, key) <==> KeyAt(s[i..], 0, key)
  {
  }

  /** For a key without an ampersand, looking no further than the segment makes no difference. */
  lemma KeyAtSegment(s: string, key: string)
    requires '&' !in key
    ensures KeyAt(s, 0, key) <==> Assigns(s[..EndOf(s, 0)], key)
    ensures KeyAt(s, 0, key) ==> |key| < EndOf(s, 0) && EndOf(s, 0) == EndOf(s, |key| + 1)
  {
    var e := EndOf(s, 0);
    if KeyAt(s, 0, key) {
      forall k | 0 <= k < |key| ensures s[k] != '&' {
        assert key[k] in key;
      }
      EndsAlike(s, |key| + 1);
    }
  }

  lemma EndsAlike(s: string, i: nat)
    requires i <= |s| && forall k | 0 <= k < i :: s[k] != '&'
    ensures EndOf(s, 0) == EndOf(s, i)
  {
  }

  /** What the scan returns, read as a text. */
  ghost function ValueText(s: string, value: Option<Slice>): Option<string> {
    match value
    case None => None
    case Some(slice) =>
      if slice.start + slice.length <= |s| then Some(s[slice.start..slice.start + slice.length]) else None
  }

  /** The slice lies inside the path and holds no ampersand, whatever the key. */
  lemma {:induction false} SliceIsInside(s: string, i: nat, key: string)
    requires i <= |s| && ValueFrom(s, i, key).Some?
    ensures var Slice(start, length) := ValueFrom(s, i, key).value;
      start + length <= |s| && '&' !in s[start..start + length] && (start + length < |s| ==> s[start + length] == '&')
    decreases |s| - i
  {
    hide SameLetters, StrChr;
    if i < |s| && !KeyAt(s, i, key) {
      SliceIsInside(s, EndOf(s, i) + 1, key);
    }
  }

  /** Where a segment starts. */
  predicate Starts(s: string, i: nat, p: nat) {
    i <= p < |s| && (p == i || s[p - 1] == '&')
  }

  /** For any key, something is found exactly when the key stands at some segment start. */
  lemma {:induction false} FoundIffKeyStarts(s: string, i: nat, key: string)
    requires i <= |s|
    ensures ValueFrom(s, i, key).Some? <==> exists p :: Starts(s, i, p) && KeyAt(s, p, key)
    decreases |s| - i
  {
    hide KeyAt, StrChr;
    if i < |s| {
      var e := EndOf(s, i);
      if KeyAt(s, i, key) {
        assert Starts(s, i, i);
      } else if e < |s| {
        FoundIffKeyStarts(s, e + 1, key);
        forall p | p != i ensures Starts(s, i, p) <==> Starts(s, e + 1, p) {
        }
      }
    }
  }

  lemma SegmentHit(s: string, i: nat, key: string)
    requires i < |s| && '&' !in key && KeyAt(s, i, key)
    ensures ValueText(s, ValueFrom(s, i, key)) == ValueIn(Segments(s[i..]), key)
  {
    hide *;
    var rest := s[i..];
    var e := EndOf(rest, 0);
    KeyAtRest(s, i, key);
    KeyAtSegment(rest, key);
    FirstAssigns(rest, key);
    EndAtRest(s, i, |key| + 1);
    FoundText(s, i, key);
    ValueWithin(s, i, |key| + 1, e);
  }

  lemma FoundText(s: string, i: nat, key: string)
    requires i < |s| && KeyAt(s, i, key)
    ensures var start := i + |key| + 1;
      start <= |s| && ValueText(s, ValueFrom(s, i, key)) == Some(s[start..EndOf(s, start)])
  {
    hide SameLetters, StrChr;
  }

  lemma FirstAssigns(s: string, key: string)
    requires |key| < EndOf(s, 0) && Assigns(s[..EndOf(s, 0)], key)
    ensures ValueIn(Segments(s), key) == Some(s[..EndOf(s, 0)][|key| + 1..])
  {
    hide EndOf, Assigns;
  }

  lemma ValueWithin(s: string, i: nat, a: nat, e: nat)
    requires a <= e && i + e <= |s|
    ensures s[i..][..e][a..] == s[i + a..i + e]
  {
  }

  lemma SegmentMiss(s: string, i: nat, key: string)
    requires i < |s| && '&' !in key && !KeyAt(s, i, key)
    ensures var e := EndOf(s, i);
      if e == |s| then ValueText(s, ValueFrom(s, i, key)) == ValueIn(Segments(s[i..]), key)
      else
        && ValueFrom(s, i, key) == ValueFrom(s, e + 1, key)
        && ValueIn(Segments(s[i..]), key) == ValueIn(Segments(s[e + 1..]), key)
  {
    hide SameLetters, StrChr;
    var rest := s[i..];
    var e := EndOf(rest, 0);
    EndAtRest(s, i, 0);
    KeyAtRest(s, i, key);
    KeyAtSegment(rest, key);
    hide EndOf, KeyAt, Assigns;
    if e < |rest| {
      assert rest[e + 1..] == s[i + e + 1..];
    }
  }

  /** For a key without an ampersand the scan is the simple parse. */
  lemma {:induction false} ScanIsParse(s: string, i: nat, key: string)
    requires i <= |s| && '&' !in key
    ensures ValueText(s, ValueFrom(s, i, key)) == ValueIn(Segments(s[i..]), key)
    decreases |s| - i
  {
    hide *;
    if i == |s| {
      NothingAtEnd(s, key);
    } else if KeyAt(s, i, key) {
      SegmentHit(s, i, key);
    } else {
      SegmentMiss(s, i, key);
      if EndOf(s, i) < |s| {
        ScanIsParse(s, EndOf(s, i) + 1, key);
      }
    }
  }

  lemma NothingAtEnd(s: string, key: string)
    ensures ValueText(s, ValueFrom(s, |s|, key)) == ValueIn(Segments(s[|s|..]), key)
  {
  }

  /** The lookup reads the first segment after the first question mark that assigns the key, and finds nothing
      when no segment does. */
  lemma LookupIsParse(path: string, q: nat, key: string)
    requires '&' !in key && q < |path| && path[q] == '?' && forall k | 0 <= k < q :: path[k] != '?'
    ensures ValueText(path, Lookup(path, key)) == ValueIn(Segments(path[q + 1..]), key)
    ensures Lookup(path, key).Some? <==> ValueIn(Segments(path[q + 1..]), key).Some?
  {
    hide ValueFrom, ValueIn, Segments;
    assert StrChr(path, 0, '?') == Some(q);
    ScanIsParse(path, q + 1, key);
    if Lookup(path, key).Some? {
      SliceIsInside(path, q + 1, key);
    }
  }

  lemma NoQueryNoValue(path: string, key: string)
    ensures Lookup(path, key).Some? ==> '?' in path
  {
  }
}
