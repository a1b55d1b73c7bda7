/** The two conversions between an entity name (PascalCase, `TraceableUnit`)
    and the name of its schema directory (snake_case, `traceable_unit`). */
module NameCodec {
  import opened Text

  /** What the directory-name comprehension emits for a character at an index
      greater than zero: an underscore before each upper-case letter, and the
      lower-case form of every character. */
  function InnerPiece(c: char): string {
    if IsUpper(c) then ['_', Lower(c)] else [Lower(c)]
  }

  /** The comprehension applied to every character of `s` as if none of them
      stood at index 0. */
  function InnerDir(s: string): string
    decreases |s|
  {
    if |s| == 0 then "" else InnerDir(s[..|s| - 1]) + InnerPiece(s[|s| - 1])
  }

  /** Number of upper-case letters in `s`. */
  function UpperCount(s: string): nat
    decreases |s|
  {
    if |s| == 0 then 0
    else UpperCount(s[..|s| - 1]) + (if IsUpper(s[|s| - 1]) then 1 else 0)
  }

  /** Entity name to directory name: the first character only lower-cased,
      every later character lower-cased with an underscore in front of it when
      it was an upper-case letter. */
  function ToDirectoryName(name: string): (dir: string)
  {
    if |name| == 0 then "" else [Lower(name[0])] + InnerDir(name[1..])
  }

  /** Directory name to entity name: split on `_`, capitalize every segment and
      concatenate. */
  function ToEntityName(dir: string): (name: string)
  {
    CapitalizeAll(Split(dir, '_'))
  }

  /** `''.join(word.capitalize() for word in parts)` */
  function CapitalizeAll(parts: seq<string>): string
    decreases |parts|
  {
    if |parts| == 0 then ""
    else CapitalizeAll(parts[..|parts| - 1]) + Capitalize(parts[|parts| - 1])
  }

  // ---------------------------------------------------------------------------
  // What the directory name looks like

  lemma InnerDirShape(s: string)
    ensures |InnerDir(s)| == |s| + UpperCount(s)
    ensures forall k :: 0 <= k < |InnerDir(s)| ==> !IsUpper(InnerDir(s)[k])
    ensures RemoveChar(InnerDir(s), '_') == RemoveChar(LowerString(s), '_')
  {
    InnerDirLength(s);
    InnerDirNoUpper(s);
    InnerDirUnderscores(s);
  }

  lemma {:induction false} InnerDirLength(s: string)
    ensures |InnerDir(s)| == |s| + UpperCount(s)
    decreases |s|
  {
    if |s| > 0 {
      InnerDirLength(s[..|s| - 1]);
    }
  }

  lemma {:induction false} InnerDirNoUpper(s: string)
    ensures forall k :: 0 <= k < |InnerDir(s)| ==> !IsUpper(InnerDir(s)[k])
    decreases |s|
  {
    if |s| > 0 {
      var s', c := s[..|s| - 1], s[|s| - 1];
      InnerDirNoUpper(s');
      var a, b := InnerDir(s'), InnerPiece(c);
      assert InnerDir(s) == a + b;
      assert forall k :: 0 <= k < |b| ==> !IsUpper(b[k]);
    }
  }

  lemma {:induction false} InnerDirUnderscores(s: string)
    ensures RemoveChar(InnerDir(s), '_') == RemoveChar(LowerString(s), '_')
    decreases |s|
  {
    if |s| > 0 {
      var s', c := s[..|s| - 1], s[|s| - 1];
      InnerDirUnderscores(s');
      LowerStringSnoc(s', c);
      assert s == s' + [c];
      RemoveCharAppend(InnerDir(s'), InnerPiece(c), '_');
      RemoveCharAppend(LowerString(s'), [Lower(c)], '_');
      PieceUnderscores(c);
    }
  }

  lemma LowerStringSnoc(s: string, c: char)
    ensures LowerString(s + [c]) == LowerString(s) + [Lower(c)]
  {
  }

  lemma PieceUnderscores(c: char)
    ensures RemoveChar(InnerPiece(c), '_') == RemoveChar([Lower(c)], '_')
  {
    if IsUpper(c) {
      assert InnerPiece(c)[1..] == [Lower(c)];
    }
  }

  lemma {:induction false} RemoveCharAppend(a: string, b: string, c: char)
    ensures RemoveChar(a + b, c) == RemoveChar(a, c) + RemoveChar(b, c)
    decreases |a|
  {
    if |a| > 0 {
      assert (a + b)[1..] == a[1..] + b;
      RemoveCharAppend(a[1..], b, c);
    } else {
      assert a + b == b;
    }
  }

  /** The directory name holds no upper-case letter; it is one character longer
      than the entity name for every upper-case letter after the first
      character; and once its underscores are dropped it is the lower-case form
      of the entity name with its underscores dropped. */
  lemma DirectoryNameShape(name: string)
    ensures var dir := ToDirectoryName(name);
            && (forall k :: 0 <= k < |dir| ==> !IsUpper(dir[k]))
            && (|name| == 0 ==> dir == "")
            && (|name| > 0 ==> |dir| == |name| + UpperCount(name[1..]))
            && RemoveChar(dir, '_') == RemoveChar(LowerString(name), '_')
            && (|name| > 0 ==> dir[0] == Lower(name[0]))
  {
    if |name| > 0 {
      var dir := ToDirectoryName(name);
      var head, tail := Lower(name[0]), name[1..];
      var inner := InnerDir(tail);
      assert dir == [head] + inner;
      InnerDirShape(tail);
      forall k | 0 <= k < |dir| ensures !IsUpper(dir[k]) {
        if k > 0 { assert dir[k] == inner[k - 1]; }
      }
      LowerStringCons(name);
      RemoveCharAppend([head], inner, '_');
      RemoveCharAppend([head], LowerString(tail), '_');
    }
  }

  lemma LowerStringCons(s: string)
    requires |s| > 0
    ensures LowerString(s) == [Lower(s[0])] + LowerString(s[1..])
  {
  }

  // ---------------------------------------------------------------------------
  // Entity name -> directory -> entity name

  /** A name survives the trip through its directory name and back when it
      holds no underscore and does not start with a lower-case letter. */
  predicate SurvivesRoundTrip(name: string) {
    '_' !in name && (|name| == 0 || !IsLower(name[0]))
  }

  /** The conversion of `app.py:38-39` followed by that of `app.py:31` gives
      back exactly the names of `SurvivesRoundTrip`: `TraceableUnit` and `ABC`
      come back, `traceableUnit` and `Traceable_Unit` do not. */
  lemma EntityRoundTrip(name: string)
    ensures ToEntityName(ToDirectoryName(name)) == name <==> SurvivesRoundTrip(name)
  {
    if SurvivesRoundTrip(name) {
      if |name| > 0 {
        RoundTripNonEmpty(name);
      }
    } else if '_' in name {
      NoUnderscoreInEntityName(ToDirectoryName(name));
    } else {
      var dir := ToDirectoryName(name);
      assert dir[0] == name[0];
      EntityNameFirst(dir);
      assert ToEntityName(dir)[0] == Upper(name[0]) != name[0];
    }
  }

  lemma {:induction false} RoundTripNonEmpty(name: string)
    requires |name| > 0 && SurvivesRoundTrip(name)
    ensures ToEntityName(ToDirectoryName(name)) == name
    ensures var parts := Split(ToDirectoryName(name), '_'); |parts[|parts| - 1]| > 0
    decreases |name|
  {
    if |name| == 1 {
      RoundTripSingle(name[0]);
      assert name == [name[0]];
    } else {
      var n', c := name[..|name| - 1], name[|name| - 1];
      assert name == n' + [c];
      assert '_' !in n';
      RoundTripNonEmpty(n');
      RoundTripStep(n', c);
    }
  }

  lemma RoundTripSingle(c: char)
    requires c != '_' && !IsLower(c)
    ensures ToEntityName(ToDirectoryName([c])) == [c]
    ensures var parts := Split(ToDirectoryName([c]), '_'); |parts[|parts| - 1]| > 0
  {
    SplitSnoc("", Lower(c), '_');
    assert ToDirectoryName([c]) == "" + [Lower(c)];
    CapitalizeAllSnoc([], [Lower(c)]);
  }

  lemma RoundTripStep(name: string, c: char)
    requires |name| > 0 && c != '_'
    requires ToEntityName(ToDirectoryName(name)) == name
    requires var parts := Split(ToDirectoryName(name), '_'); |parts[|parts| - 1]| > 0
    ensures ToEntityName(ToDirectoryName(name + [c])) == name + [c]
    ensures var parts := Split(ToDirectoryName(name + [c]), '_'); |parts[|parts| - 1]| > 0
  {
    ToDirectorySnoc(name, c);
    if IsUpper(c) {
      AppendWord(ToDirectoryName(name), c);
    } else {
      ExtendWord(ToDirectoryName(name), c);
    }
  }

  /** An upper-case letter opens a new segment of the directory name. */
  lemma AppendWord(dir: string, c: char)
    requires IsUpper(c)
    ensures var d := dir + InnerPiece(c);
            && ToEntityName(d) == ToEntityName(dir) + [c]
            && var parts := Split(d, '_'); |parts[|parts| - 1]| > 0
  {
    var lc := Lower(c);
    var d := dir + InnerPiece(c);
    assert d == dir + ['_'] + [lc];
    SplitSnocSeparator(dir, lc, '_');
    CapitalizeAllSnoc(Split(dir, '_'), [lc]);
    CapitalizeLowered(c);
  }

  lemma CapitalizeLowered(c: char)
    requires IsUpper(c)
    ensures Capitalize([Lower(c)]) == [c]
  {
  }

  /** Any other character extends the last, non-empty, segment. */
  lemma ExtendWord(dir: string, c: char)
    requires !IsUpper(c) && c != '_'
    requires var parts := Split(dir, '_'); |parts[|parts| - 1]| > 0
    ensures var d := dir + InnerPiece(c);
            && ToEntityName(d) == ToEntityName(dir) + [c]
            && var parts := Split(d, '_'); |parts[|parts| - 1]| > 0
  {
    assert InnerPiece(c) == [c];
    SplitSnoc(dir, c, '_');
    ExtendLastPart(Split(dir, '_'), c);
  }

  lemma ExtendLastPart(parts: seq<string>, c: char)
    requires |parts| > 0 && |parts[|parts| - 1]| > 0 && !IsUpper(c)
    ensures CapitalizeAll(parts[..|parts| - 1] + [parts[|parts| - 1] + [c]])
            == CapitalizeAll(parts) + [c]
  {
    var front, last := parts[..|parts| - 1], parts[|parts| - 1];
    assert front + [last] == parts;
    CapitalizeSnoc(last, c);
    CapitalizeAllSnoc(front, last);
    CapitalizeAllSnoc(front, last + [c]);
  }

  lemma ToDirectorySnoc(name: string, c: char)
    requires |name| > 0
    ensures ToDirectoryName(name + [c]) == ToDirectoryName(name) + InnerPiece(c)
  {
    var s := name + [c];
    assert s[1..] == name[1..] + [c];
    assert s[1..][..|s[1..]| - 1] == name[1..];
  }

  lemma SplitSnoc(s: string, c: char, sep: char)
    requires c != sep
    ensures var init := Split(s, sep);
            Split(s + [c], sep) == init[..|init| - 1] + [init[|init| - 1] + [c]]
  {
    assert (s + [c])[..|s|] == s;
  }

  lemma SplitSnocSeparator(s: string, c: char, sep: char)
    requires c != sep
    ensures Split(s + [sep] + [c], sep) == Split(s, sep) + [[c]]
  {
    var s1 := s + [sep];
    assert s1[..|s|] == s;
    assert Split(s1, sep) == Split(s, sep) + [""];
    SplitSnoc(s1, c, sep);
    var init := Split(s, sep) + [""];
    assert init[..|init| - 1] == Split(s, sep);
    assert init[|init| - 1] + [c] == [c];
  }

  lemma CapitalizeAllSnoc(parts: seq<string>, w: string)
    ensures CapitalizeAll(parts + [w]) == CapitalizeAll(parts) + Capitalize(w)
  {
    assert (parts + [w])[..|parts|] == parts;
  }

  lemma CapitalizeSnoc(w: string, c: char)
    requires |w| > 0 && !IsUpper(c)
    ensures Capitalize(w + [c]) == Capitalize(w) + [c]
  {
    assert (w + [c])[1..] == w[1..] + [c];
    assert LowerString(w[1..] + [c]) == LowerString(w[1..]) + [Lower(c)];
  }

  /** No entity name produced from a directory contains an underscore. */
  lemma NoUnderscoreInEntityName(dir: string)
    ensures '_' !in ToEntityName(dir)
  {
    JoinSplit(dir, '_');
    CapitalizeAllNoUnderscore(Split(dir, '_'));
  }

  lemma {:induction false} CapitalizeAllNoUnderscore(parts: seq<string>)
    requires forall k :: 0 <= k < |parts| ==> '_' !in parts[k]
    ensures '_' !in CapitalizeAll(parts)
    decreases |parts|
  {
    if |parts| > 0 {
      var w := parts[|parts| - 1];
      CapitalizeAllNoUnderscore(parts[..|parts| - 1]);
      assert forall k :: 0 <= k < |w| ==> Capitalize(w)[k] != '_' by {
        forall k | 0 <= k < |w| ensures Capitalize(w)[k] != '_' {
          if k > 0 {
            assert Capitalize(w)[k] == LowerString(w[1..])[k - 1] == Lower(w[k]);
          }
        }
      }
    }
  }

  /** The first character of a directory name, when it is not an underscore,
      comes out capitalized at the head of the entity name. */
  lemma EntityNameFirst(dir: string)
    requires |dir| > 0 && dir[0] != '_'
    ensures |ToEntityName(dir)| > 0 && ToEntityName(dir)[0] == Upper(dir[0])
  {
    SplitFirst(dir, '_');
    CapitalizeAllFirst(Split(dir, '_'));
  }

  lemma {:induction false} SplitFirst(s: string, sep: char)
    requires |s| > 0 && s[0] != sep
    ensures |Split(s, sep)[0]| > 0 && Split(s, sep)[0][0] == s[0]
    decreases |s|
  {
    if |s| > 1 {
      var s' := s[..|s| - 1];
      SplitFirst(s', sep);
    }
  }

  lemma {:induction false} CapitalizeAllFirst(parts: seq<string>)
    requires |parts| > 0 && |parts[0]| > 0
    ensures |CapitalizeAll(parts)| > 0 && CapitalizeAll(parts)[0] == Upper(parts[0][0])
    decreases |parts|
  {
    if |parts| > 1 {
      CapitalizeAllFirst(parts[..|parts| - 1]);
    } else {
      assert CapitalizeAll(parts) == CapitalizeAll([]) + Capitalize(parts[0]);
    }
  }

  // ---------------------------------------------------------------------------
  // Directory name -> entity name -> directory

  predicate NoUpper(s: string) {
    forall m :: 0 <= m < |s| ==> !IsUpper(s[m])
  }

  /** A snake_case directory name: no upper-case letter, no empty segment, and
      every segment after the first opening with a lower-case letter. */
  predicate IsSnakeCase(dir: string) {
    var parts := Split(dir, '_');
    && NoUpper(dir)
    && (dir == "" || forall k :: 0 <= k < |parts| ==> |parts[k]| > 0)
    && (forall k :: 1 <= k < |parts| ==> |parts[k]| > 0 && IsLower(parts[k][0]))
  }

  /** An entity listed from a snake_case directory is looked up again in that
      same directory (`app.py:31` then `app.py:38-39`). */
  lemma DirectoryRoundTrip(dir: string)
    requires IsSnakeCase(dir)
    ensures ToDirectoryName(ToEntityName(dir)) == dir
  {
    var parts := Split(dir, '_');
    JoinSplit(dir, '_');
    if dir != "" {
      forall k | 0 <= k < |parts| ensures NoUpper(parts[k]) {
        PartsWithoutUpper(dir, k);
      }
      JoinedPartsRoundTrip(parts);
    }
  }

  lemma PartsWithoutUpper(dir: string, k: nat)
    requires NoUpper(dir)
    requires k < |Split(dir, '_')|
    ensures NoUpper(Split(dir, '_')[k])
  {
    var parts := Split(dir, '_');
    forall m | 0 <= m < |parts[k]| ensures !IsUpper(parts[k][m]) {
      JoinSplit(dir, '_');
      JoinContainsPart(parts, '_', k, m);
    }
  }

  lemma {:induction false} JoinContainsPart(parts: seq<string>, sep: char, k: nat, m: nat)
    requires k < |parts| && m < |parts[k]|
    ensures parts[k][m] in Join(parts, sep)
    decreases |parts|
  {
    if |parts| > 1 {
      var init := parts[..|parts| - 1];
      if k < |parts| - 1 {
        JoinContainsPart(init, sep, k, m);
      }
      assert Join(parts, sep) == Join(init, sep) + [sep] + parts[|parts| - 1];
    }
  }

  lemma {:induction false} JoinedPartsRoundTrip(parts: seq<string>)
    requires |parts| > 0
    requires forall k :: 0 <= k < |parts| ==> |parts[k]| > 0
    requires forall k :: 0 <= k < |parts| ==> NoUpper(parts[k])
    requires forall k :: 1 <= k < |parts| ==> IsLower(parts[k][0])
    ensures ToDirectoryName(CapitalizeAll(parts)) == Join(parts, '_')
    decreases |parts|
  {
    var init, w := parts[..|parts| - 1], parts[|parts| - 1];
    LastSplit(parts);
    if |parts| > 1 {
      JoinedPartsRoundTrip(init);
      JoinedPartsStep(init, w);
    } else {
      assert parts == [w];
      CapitalizeSnake(w);
      assert CapitalizeAll(parts) == CapitalizeAll([]) + Capitalize(w) == Capitalize(w);
    }
  }

  /** One more segment, opening with a lower-case letter, keeps the round trip. */
  lemma JoinedPartsStep(init: seq<string>, w: string)
    requires |init| > 0 && |init[0]| > 0
    requires |w| > 0 && NoUpper(w) && IsLower(w[0])
    requires ToDirectoryName(CapitalizeAll(init)) == Join(init, '_')
    ensures ToDirectoryName(CapitalizeAll(init + [w])) == Join(init + [w], '_')
  {
    CapitalizeAllSnoc(init, w);
    CapitalizeSnake(w);
    CapitalizeAllFirst(init);
    ToDirectoryAppend(CapitalizeAll(init), Capitalize(w));
    JoinSnoc(init, w, '_');
  }

  lemma LastSplit<T>(s: seq<T>)
    requires |s| > 0
    ensures s[..|s| - 1] + [s[|s| - 1]] == s
  {
  }

  lemma JoinSnoc(init: seq<string>, w: string, sep: char)
    requires |init| > 0
    ensures Join(init + [w], sep) == Join(init, sep) + [sep] + w
  {
    assert (init + [w])[..|init|] == init;
  }

  /** Capitalizing a segment without upper-case letters is undone by the
      directory conversion, which puts an underscore in front of it when it
      does not stand first and opened with a lower-case letter. */
  lemma CapitalizeSnake(w: string)
    requires |w| > 0 && NoUpper(w)
    ensures ToDirectoryName(Capitalize(w)) == w
    ensures IsLower(w[0]) ==> InnerDir(Capitalize(w)) == ['_'] + w
  {
    var tail := w[1..];
    var u := Upper(w[0]);
    CapitalizeNoUpper(w);
    assert w == [w[0]] + tail;
    InnerDirIdentity(tail);
    LowerUpper(w[0]);
    CapitalizedInnerDir(u, tail);
  }

  lemma CapitalizeNoUpper(w: string)
    requires |w| > 0 && NoUpper(w)
    ensures Capitalize(w) == [Upper(w[0])] + w[1..]
  {
    LowerStringIdentity(w[1..]);
  }

  lemma CapitalizedInnerDir(u: char, tail: string)
    requires NoUpper(tail) && InnerDir(tail) == tail
    ensures ToDirectoryName([u] + tail) == [Lower(u)] + tail
    ensures InnerDir([u] + tail) == InnerPiece(u) + tail
  {
    assert ([u] + tail)[1..] == tail;
    InnerDirAppend([u], tail);
    assert InnerDir([u]) == InnerDir([]) + InnerPiece(u);
  }

  lemma LowerUpper(c: char)
    requires !IsUpper(c)
    ensures Lower(Upper(c)) == c
  {
  }

  lemma LowerStringIdentity(s: string)
    requires NoUpper(s)
    ensures LowerString(s) == s
  {
  }

  lemma ToDirectoryAppend(x: string, y: string)
    requires |x| > 0
    ensures ToDirectoryName(x + y) == ToDirectoryName(x) + InnerDir(y)
  {
    assert (x + y)[1..] == x[1..] + y;
    InnerDirAppend(x[1..], y);
  }

  lemma {:induction false} InnerDirIdentity(s: string)
    requires NoUpper(s)
    ensures InnerDir(s) == s
    decreases |s|
  {
    if |s| > 0 {
      InnerDirIdentity(s[..|s| - 1]);
      assert s == s[..|s| - 1] + [s[|s| - 1]];
    }
  }

  lemma {:induction false} InnerDirAppend(a: string, b: string)
    ensures InnerDir(a + b) == InnerDir(a) + InnerDir(b)
    decreases |b|
  {
    if |b| == 0 {
      assert a + b == a;
    } else {
      var b' := b[..|b| - 1];
      InnerDirAppend(a, b');
      assert (a + b)[..|a + b| - 1] == a + b';
    }
  }
}
