/** ASCII text primitives that mirror the Python `str` methods the validator
    relies on: `isupper`, `lower`, `upper`, `capitalize`, `strip`,
    `startswith`, `in`, `split` and `replace(ch, '')`. Casing and whitespace
    are those of the ASCII range; every other character is caseless and not
    whitespace. */
module Text {

  datatype Option<T> = None | Some(value: T)

  predicate IsUpper(c: char) { 'A' <= c <= 'Z' }

  predicate IsLower(c: char) { 'a' <= c <= 'z' }

  /** `str.isspace` restricted to ASCII: tab, newline, vertical tab, form feed,
      carriage return, the four information separators and the space. */
  predicate IsSpace(c: char) { c == ' ' || 9 <= c as int <= 13 || 28 <= c as int <= 31 }

  function Upper(c: char): (r: char)
    ensures !IsLower(r)
    ensures IsLower(c) ==> IsUpper(r) && r as int == c as int - 32
    ensures !IsLower(c) ==> r == c
  {
    if IsLower(c) then (c as int - 32) as char else c
  }

  function Lower(c: char): (r: char)
    ensures !IsUpper(r)
    ensures IsUpper(c) ==> IsLower(r) && Upper(r) == c
    ensures !IsUpper(c) ==> r == c
  {
    if IsUpper(c) then (c as int + 32) as char else c
  }

  /** `s.lower()` */
  function LowerString(s: string): (r: string)
    ensures |r| == |s|
    ensures forall i :: 0 <= i < |s| ==> r[i] == Lower(s[i])
    decreases |s|
  {
    if |s| == 0 then "" else [Lower(s[0])] + LowerString(s[1..])
  }

  /** `s.capitalize()`: the first character upper-cased, the rest lower-cased. */
  function Capitalize(s: string): (r: string)
    ensures |r| == |s|
    ensures |s| > 0 ==> r[0] == Upper(s[0]) && r[1..] == LowerString(s[1..])
  {
    if |s| == 0 then "" else [Upper(s[0])] + LowerString(s[1..])
  }

  /** The index of the first non-whitespace character of `s` at or after `i`,
      or `|s|` if there is none. */
  function SkipSpace(s: string, i: nat): (k: nat)
    requires i <= |s|
    ensures i <= k <= |s|
    decreases |s| - i
  {
    if i == |s| || !IsSpace(s[i]) then i else SkipSpace(s, i + 1)
  }

  lemma {:induction false} SkipSpaceSpec(s: string, i: nat)
    requires i <= |s|
    ensures forall j :: i <= j < SkipSpace(s, i) ==> IsSpace(s[j])
    ensures SkipSpace(s, i) == |s| || !IsSpace(s[SkipSpace(s, i)])
    decreases |s| - i
  {
    if i < |s| && IsSpace(s[i]) {
      SkipSpaceSpec(s, i + 1);
    }
  }

  /** The end of `s[lo..j]` once its trailing whitespace is cut off. */
  function SkipSpaceBack(s: string, lo: nat, j: nat): (k: nat)
    requires lo <= j <= |s|
    ensures lo <= k <= j
    decreases j
  {
    if j == lo || !IsSpace(s[j - 1]) then j else SkipSpaceBack(s, lo, j - 1)
  }

  lemma {:induction false} SkipSpaceBackSpec(s: string, lo: nat, j: nat)
    requires lo <= j <= |s|
    ensures forall m :: SkipSpaceBack(s, lo, j) <= m < j ==> IsSpace(s[m])
    ensures SkipSpaceBack(s, lo, j) == lo || !IsSpace(s[SkipSpaceBack(s, lo, j) - 1])
    decreases j
  {
    if j > lo && IsSpace(s[j - 1]) {
      SkipSpaceBackSpec(s, lo, j - 1);
    }
  }

  /** `s.strip()`: the slice of `s` left once leading and trailing whitespace
      is cut off. */
  function Strip(s: string): (r: string)
    ensures |r| <= |s|
  {
    var a := SkipSpace(s, 0);
    s[a..SkipSpaceBack(s, a, |s|)]
  }

  /** What `Strip` cuts off is whitespace, and what it keeps neither starts
      nor ends with whitespace. */
  lemma StripSpec(s: string)
    ensures var r, a := Strip(s), SkipSpace(s, 0);
            && (r == [] || (!IsSpace(r[0]) && !IsSpace(r[|r| - 1])))
            && a + |r| <= |s| && r == s[a..a + |r|]
            && (forall m :: 0 <= m < a ==> IsSpace(s[m]))
            && (forall m :: a + |r| <= m < |s| ==> IsSpace(s[m]))
  {
    var a := SkipSpace(s, 0);
    SkipSpaceSpec(s, 0);
    SkipSpaceBackSpec(s, a, |s|);
  }

  /** `s.startswith(p)` */
  predicate StartsWith(s: string, p: string) {
    |p| <= |s| && s[..|p|] == p
  }

  /** `p in s` for strings: `p` occurs as a contiguous slice of `s`. */
  predicate Contains(s: string, p: string)
    decreases |s|
  {
    StartsWith(s, p) || (|s| > 0 && Contains(s[1..], p))
  }

  /** `s.replace(c, '')` */
  function RemoveChar(s: string, c: char): (r: string)
    ensures c !in r
    ensures |r| <= |s|
  {
    if |s| == 0 then ""
    else if s[0] == c then RemoveChar(s[1..], c) else [s[0]] + RemoveChar(s[1..], c)
  }

  /** `s.replace(c, '')` keeps every other character, as often as `s` has it. */
  lemma {:induction false} RemoveCharKeeps(s: string, c: char)
    ensures forall x :: x != c ==> multiset(RemoveChar(s, c))[x] == multiset(s)[x]
    decreases |s|
  {
    if |s| > 0 {
      RemoveCharKeeps(s[1..], c);
      assert s == [s[0]] + s[1..];
    }
  }

  /** `s.split(sep)` for a one-character separator: always at least one part,
      and an empty string splits into one empty part. */
  function Split(s: string, sep: char): (parts: seq<string>)
    ensures |parts| >= 1
    decreases |s|
  {
    if |s| == 0 then [""]
    else
      var init := Split(s[..|s| - 1], sep);
      var c := s[|s| - 1];
      if c == sep then init + [""]
      else init[..|init| - 1] + [init[|init| - 1] + [c]]
  }

  /** `sep.join(parts)` */
  function Join(parts: seq<string>, sep: char): string
    decreases |parts|
  {
    if |parts| == 0 then ""
    else if |parts| == 1 then parts[0]
    else Join(parts[..|parts| - 1], sep) + [sep] + parts[|parts| - 1]
  }

  /** Splitting loses nothing: the parts hold no separator, and joining them
      back with it gives the original string. */
  lemma {:induction false} JoinSplit(s: string, sep: char)
    ensures Join(Split(s, sep), sep) == s
    ensures forall k :: 0 <= k < |Split(s, sep)| ==> sep !in Split(s, sep)[k]
    decreases |s|
  {
    if |s| > 0 {
      var s' := s[..|s| - 1];
      var c := s[|s| - 1];
      JoinSplit(s', sep);
      var init := Split(s', sep);
      assert s == s' + [c];
      if c == sep {
        assert (init + [""])[..|init|] == init;
      } else {
        var parts := Split(s, sep);
        assert parts[..|parts| - 1] == init[..|init| - 1];
        if |init| == 1 {
          assert Join(parts, sep) == init[0] + [c];
        } else {
          assert init[..|init| - 1][..|init| - 2] == init[..|init| - 2];
          calc {
            Join(parts, sep);
            Join(init[..|init| - 1], sep) + [sep] + (init[|init| - 1] + [c]);
            (Join(init[..|init| - 1], sep) + [sep] + init[|init| - 1]) + [c];
            Join(init, sep) + [c];
          }
        }
      }
    }
  }
}
