/** The natural ordering of file names (`natural_sort_key` in deconstruct.py):
    a name is cut into alternating non-digit and digit runs, the way
    `re.split(r'(\d+)', s)` does; digit runs compare as integers and the rest
    as lower-cased text. */
module NaturalSort {
  import opened Text

  /** One element of a sort key: lower-cased text or a parsed integer. */
  datatype Token = Str(s: string) | Num(n: nat)

  /** Length of the longest prefix of `s` that holds no digit. */
  function NonDigitPrefix(s: string): (n: nat)
    ensures n <= |s|
    ensures forall i | 0 <= i < n :: !IsDigit(s[i])
    ensures n < |s| ==> IsDigit(s[n])
  {
    if s == [] || IsDigit(s[0]) then 0 else 1 + NonDigitPrefix(s[1..])
  }

  /** Length of the longest prefix of `s` that holds only digits. */
  function DigitPrefix(s: string): (n: nat)
    ensures n <= |s|
    ensures forall i | 0 <= i < n :: IsDigit(s[i])
    ensures n < |s| ==> !IsDigit(s[n])
  {
    if s == [] || !IsDigit(s[0]) then 0 else 1 + DigitPrefix(s[1..])
  }

  function Concat(runs: seq<string>): string {
    if runs == [] then [] else runs[0] + Concat(runs[1..])
  }

  /** The run structure `re.split(r'(\d+)', s)` produces: odd length, no digit
      in the even runs, only digits in the odd runs (never empty), and only the
      first and the last run can be empty. */
  ghost predicate RunShape(runs: seq<string>) {
    && |runs| % 2 == 1
    && (forall i | 0 <= i < |runs| && i % 2 == 0 :: NoDigits(runs[i]))
    && (forall i | 0 <= i < |runs| && i % 2 == 1 :: runs[i] != [] && AllDigits(runs[i]))
    && (forall i | 0 < i < |runs| - 1 && i % 2 == 0 :: runs[i] != [])
  }

  /** `re.split(r'(\d+)', s)`: cut off the longest digit-free prefix, then the
      longest digit run after it, and split the rest the same way. */
  function SplitRuns(s: string): (runs: seq<string>)
    ensures runs != []
    decreases |s|
  {
    var n := NonDigitPrefix(s);
    if n == |s| then [s]
    else
      var rest := s[n..];
      var m := DigitPrefix(rest);
      [s[..n], rest[..m]] + SplitRuns(rest[m..])
  }

  /** Gluing the runs back together gives the input. */
  lemma {:induction false} SplitRunsConcat(s: string)
    ensures Concat(SplitRuns(s)) == s
    decreases |s|
  {
    var n := NonDigitPrefix(s);
    if n < |s| {
      var rest := s[n..];
      var m := DigitPrefix(rest);
      var tail := SplitRuns(rest[m..]);
      assert SplitRuns(s) == [s[..n], rest[..m]] + tail;
      SplitRunsConcat(rest[m..]);
      ConcatTwo(s[..n], rest[..m], tail);
      assert s == s[..n] + (rest[..m] + rest[m..]);
    }
  }

  lemma ConcatTwo(a: string, b: string, tail: seq<string>)
    ensures Concat([a, b] + tail) == a + b + Concat(tail)
  {
    var runs := [a, b] + tail;
    assert runs[1..] == [b] + tail && runs[1..][1..] == tail;
  }

  /** The runs alternate as RunShape says, and a name that starts with a
      non-digit has a non-empty first run. */
  lemma {:induction false} SplitRunsShape(s: string)
    ensures RunShape(SplitRuns(s))
    ensures s != [] && !IsDigit(s[0]) ==> SplitRuns(s)[0] != []
    decreases |s|
  {
    var n := NonDigitPrefix(s);
    if n < |s| {
      var rest := s[n..];
      var m := DigitPrefix(rest);
      var tail := SplitRuns(rest[m..]);
      assert SplitRuns(s) == [s[..n], rest[..m]] + tail;
      SplitRunsShape(rest[m..]);
      if rest[m..] == [] {
        assert tail == [[]];
      } else {
        assert !IsDigit(rest[m..][0]);
      }
      RunShapeCons(s[..n], rest[..m], tail);
    }
  }

  /** A digit-free run and a digit run in front of a well-shaped split whose
      first run is empty only when it is the last. */
  lemma RunShapeCons(a: string, d: string, tail: seq<string>)
    requires NoDigits(a) && d != [] && AllDigits(d)
    requires RunShape(tail) && (|tail| == 1 || tail[0] != [])
    ensures RunShape([a, d] + tail)
  {
    var runs := [a, d] + tail;
    forall i | 2 <= i < |runs| ensures runs[i] == tail[i - 2] {
    }
  }

  lemma {:induction false} NonDigitPrefixOf(a: string, x: string)
    requires NoDigits(a) && (x == [] || IsDigit(x[0]))
    ensures NonDigitPrefix(a + x) == |a|
  {
    if a != [] {
      assert (a + x)[1..] == a[1..] + x;
      NonDigitPrefixOf(a[1..], x);
    }
  }

  lemma {:induction false} DigitPrefixOf(d: string, x: string)
    requires AllDigits(d) && (x == [] || !IsDigit(x[0]))
    ensures DigitPrefix(d + x) == |d|
  {
    if d != [] {
      assert (d + x)[1..] == d[1..] + x;
      DigitPrefixOf(d[1..], x);
    }
  }

  /** The split is the only well-shaped one: splitting glued runs gives back
      the runs. */
  lemma {:induction false} SplitConcatInverse(runs: seq<string>)
    requires RunShape(runs)
    ensures SplitRuns(Concat(runs)) == runs
    decreases |runs|
  {
    if |runs| == 1 {
      assert Concat(runs) == runs[0] + Concat([]);
      NonDigitPrefixOf(runs[0], []);
      assert runs[0] + [] == runs[0];
    } else {
      var a, d, tail := runs[0], runs[1], runs[2..];
      assert runs == [a, d] + tail;
      assert RunShape(tail) by {
        forall i | 0 <= i < |tail| ensures tail[i] == runs[i + 2] {
        }
      }
      ConcatTwo(a, d, tail);
      var rest := Concat(tail);
      assert rest == [] || !IsDigit(rest[0]) by {
        assert rest == tail[0] + Concat(tail[1..]);
        if |tail| > 1 {
          assert tail[0] == runs[2] && runs[2] != [];
        }
      }
      var s := a + d + rest;
      assert s == a + (d + rest);
      NonDigitPrefixOf(a, d + rest);
      assert s[|a|..] == d + rest;
      DigitPrefixOf(d, rest);
      assert (d + rest)[..|d|] == d && (d + rest)[|d|..] == rest;
      SplitConcatInverse(tail);
    }
  }

  /** `int(text)` for a run of ASCII digits. */
  function DigitsValue(t: string): nat
    requires AllDigits(t)
  {
    if t == [] then 0
    else DigitsValue(t[..|t| - 1]) * 10 + (t[|t| - 1] as int - '0' as int)
  }

  /** `int(text) if text.isdigit() else text.lower()`. */
  function TokenOf(t: string): Token {
    if t != [] && AllDigits(t) then Num(DigitsValue(t)) else Str(Lower(t))
  }

  /** In runs shaped like a split, the text runs give text tokens and the
      digit runs integers. */
  lemma TokenKinds(runs: seq<string>)
    ensures RunShape(runs) ==> forall i | 0 <= i < |runs| :: TokenOf(runs[i]).Str? <==> i % 2 == 0
  {
    if RunShape(runs) {
      forall i | 0 <= i < |runs| && i % 2 == 0 && runs[i] != [] ensures !IsDigit(runs[i][0]) {
      }
    }
  }

  /** `[int(text) if text.isdigit() else text.lower() for text in runs]`: one
      token per run, and on a split's runs text and integers alternate. */
  function KeyOfRuns(runs: seq<string>): (key: seq<Token>)
    ensures |key| == |runs|
    ensures RunShape(runs) ==> forall i | 0 <= i < |runs| :: key[i].Str? <==> i % 2 == 0
  {
    TokenKinds(runs);
    seq(|runs|, i requires 0 <= i < |runs| => TokenOf(runs[i]))
  }

  lemma KeyOfRunsAppend(r1: seq<string>, r2: seq<string>)
    ensures KeyOfRuns(r1 + r2) == KeyOfRuns(r1) + KeyOfRuns(r2)
  {
  }

  /** `natural_sort_key(s)`. */
  function NaturalKey(s: string): seq<Token> {
    KeyOfRuns(SplitRuns(s))
  }

  /** The shape of every key: odd length, text at the even positions (digit-free
      and lower-case) and integers at the odd ones, parsed from the digit runs. */
  lemma KeyShape(s: string)
    ensures |NaturalKey(s)| % 2 == 1
    ensures forall i | 0 <= i < |NaturalKey(s)| :: NaturalKey(s)[i].Str? <==> i % 2 == 0
    ensures forall i | 0 <= i < |NaturalKey(s)| && i % 2 == 0 ::
              i < |SplitRuns(s)| && NaturalKey(s)[i] == Str(Lower(SplitRuns(s)[i])) && NoDigits(NaturalKey(s)[i].s)
              && forall j | 0 <= j < |NaturalKey(s)[i].s| :: !IsUpper(NaturalKey(s)[i].s[j])
    ensures forall i | 0 <= i < |NaturalKey(s)| && i % 2 == 1 ::
              i < |SplitRuns(s)| && AllDigits(SplitRuns(s)[i])
              && NaturalKey(s)[i] == Num(DigitsValue(SplitRuns(s)[i]))
  {
    var runs := SplitRuns(s);
    SplitRunsShape(s);
    forall i | 0 <= i < |runs| && i % 2 == 0 ensures TokenOf(runs[i]) == Str(Lower(runs[i])) {
      if runs[i] != [] {
        assert !IsDigit(runs[i][0]);
      }
    }
  }

  /** Two keys hold the same kind of token at every index they share: the
      comparison of keys never puts text against an integer, so Python's
      list comparison cannot fail on them. */
  lemma KeysComparable(a: string, b: string, i: nat)
    requires i < |NaturalKey(a)| && i < |NaturalKey(b)|
    ensures NaturalKey(a)[i].Str? == NaturalKey(b)[i].Str?
  {
    KeyShape(a);
    KeyShape(b);
  }

  // Python's `<` on strings, tokens and lists of tokens.

  /** Lexicographic order on strings by code point, a proper prefix first. */
  predicate StrLess(a: string, b: string) {
    if a == [] then b != []
    else if b == [] then false
    else if a[0] != b[0] then a[0] < b[0]
    else StrLess(a[1..], b[1..])
  }

  /** Tokens of one kind compare by value. Text against an integer is a
      `TypeError` in Python; KeysComparable shows keys never reach that case,
      which is ordered here text-first only to make the order total. */
  predicate TokenLess(x: Token, y: Token) {
    match (x, y)
    case (Str(a), Str(b)) => StrLess(a, b)
    case (Num(a), Num(b)) => a < b
    case (Str(_), Num(_)) => true
    case (Num(_), Str(_)) => false
  }

  /** Python's list comparison: the first differing token decides; a proper
      prefix comes first. */
  predicate KeyLess(a: seq<Token>, b: seq<Token>) {
    if a == [] then b != []
    else if b == [] then false
    else if a[0] != b[0] then TokenLess(a[0], b[0])
    else KeyLess(a[1..], b[1..])
  }

  lemma {:induction false} StrLessIrreflexive(a: string)
    ensures !StrLess(a, a)
  {
    if a != [] {
      StrLessIrreflexive(a[1..]);
    }
  }

  lemma {:induction false} StrLessTransitive(a: string, b: string, c: string)
    requires StrLess(a, b) && StrLess(b, c)
    ensures StrLess(a, c)
  {
    if a != [] && a[0] == b[0] && b[0] == c[0] {
      StrLessTransitive(a[1..], b[1..], c[1..]);
    }
  }

  lemma {:induction false} StrLessTotal(a: string, b: string)
    requires a != b
    ensures StrLess(a, b) || StrLess(b, a)
  {
    if a != [] && b != [] && a[0] == b[0] {
      assert a == [a[0]] + a[1..] && b == [b[0]] + b[1..];
      StrLessTotal(a[1..], b[1..]);
    }
  }

  lemma TokenLessIrreflexive(x: Token)
    ensures !TokenLess(x, x)
  {
    if x.Str? {
      StrLessIrreflexive(x.s);
    }
  }

  lemma TokenLessTransitive(x: Token, y: Token, z: Token)
    requires TokenLess(x, y) && TokenLess(y, z)
    ensures TokenLess(x, z)
  {
    if x.Str? && y.Str? && z.Str? {
      StrLessTransitive(x.s, y.s, z.s);
    }
  }

  lemma TokenLessTotal(x: Token, y: Token)
    requires x != y
    ensures TokenLess(x, y) || TokenLess(y, x)
  {
    if x.Str? && y.Str? {
      StrLessTotal(x.s, y.s);
    }
  }

  lemma {:induction false} KeyLessIrreflexive(a: seq<Token>)
    ensures !KeyLess(a, a)
  {
    if a != [] {
      KeyLessIrreflexive(a[1..]);
    }
  }

  lemma {:induction false} KeyLessTransitive(a: seq<Token>, b: seq<Token>, c: seq<Token>)
    requires KeyLess(a, b) && KeyLess(b, c)
    ensures KeyLess(a, c)
  {
    if a != [] && b != [] && c != [] {
      if a[0] == b[0] && b[0] == c[0] {
        KeyLessTransitive(a[1..], b[1..], c[1..]);
      } else if a[0] != b[0] && b[0] != c[0] {
        TokenLessTransitive(a[0], b[0], c[0]);
        if a[0] == c[0] {
          TokenLessIrreflexive(a[0]);
        }
      }
    }
  }

  lemma {:induction false} KeyLessTotal(a: seq<Token>, b: seq<Token>)
    requires a != b
    ensures KeyLess(a, b) || KeyLess(b, a)
  {
    if a != [] && b != [] {
      if a[0] == b[0] {
        assert a == [a[0]] + a[1..] && b == [b[0]] + b[1..];
        KeyLessTotal(a[1..], b[1..]);
      } else {
        TokenLessTotal(a[0], b[0]);
      }
    }
  }

  /** `b` does not sort strictly before `a`. */
  predicate KeyLe(a: string, b: string) {
    !KeyLess(NaturalKey(b), NaturalKey(a))
  }

  lemma KeyLeTotal(a: string, b: string)
    ensures KeyLe(a, b) || KeyLe(b, a)
  {
    if NaturalKey(a) == NaturalKey(b) {
      KeyLessIrreflexive(NaturalKey(a));
    } else if KeyLess(NaturalKey(a), NaturalKey(b)) && KeyLess(NaturalKey(b), NaturalKey(a)) {
      KeyLessTransitive(NaturalKey(a), NaturalKey(b), NaturalKey(a));
      KeyLessIrreflexive(NaturalKey(a));
    }
  }

  lemma KeyLeTransitive(a: string, b: string, c: string)
    requires KeyLe(a, b) && KeyLe(b, c)
    ensures KeyLe(a, c)
  {
    var ka, kb, kc := NaturalKey(a), NaturalKey(b), NaturalKey(c);
    if KeyLess(kc, ka) {
      if ka != kb {
        KeyLessTotal(ka, kb);
        KeyLessTransitive(kc, ka, kb);
      }
    }
  }

  /** Python's list comparison: after a common prefix the first differing
      token decides, whatever follows it. */
  lemma {:induction false} KeyLessAfterPrefix(p: seq<Token>, x: Token, y: Token, q1: seq<Token>, q2: seq<Token>)
    requires TokenLess(x, y)
    ensures KeyLess(p + [x] + q1, p + [y] + q2)
  {
    TokenLessIrreflexive(x);
    if p != [] {
      assert (p + [x] + q1)[1..] == p[1..] + [x] + q1;
      assert (p + [y] + q2)[1..] == p[1..] + [y] + q2;
      KeyLessAfterPrefix(p[1..], x, y, q1, q2);
    } else {
      assert p + [x] + q1 == [x] + q1 && p + [y] + q2 == [y] + q2;
    }
  }

  lemma {:induction false} ConcatAppend(r1: seq<string>, r2: seq<string>)
    ensures Concat(r1 + r2) == Concat(r1) + Concat(r2)
  {
    if r1 == [] {
      assert r1 + r2 == r2;
    } else {
      assert (r1 + r2)[1..] == r1[1..] + r2;
      ConcatAppend(r1[1..], r2);
    }
  }

  /** A name that ends in a non-digit ends in a non-empty text run. */
  lemma {:induction false} SplitRunsLast(s: string)
    requires s != [] && !IsDigit(s[|s| - 1])
    ensures SplitRuns(s)[|SplitRuns(s)| - 1] != []
    decreases |s|
  {
    var n := NonDigitPrefix(s);
    if n < |s| {
      var rest := s[n..];
      var m := DigitPrefix(rest);
      var tail := rest[m..];
      assert m < |rest| by {
        assert s[|s| - 1] == rest[|rest| - 1];
      }
      assert 0 < m by {
        assert IsDigit(rest[0]);
      }
      assert tail[|tail| - 1] == s[|s| - 1];
      SplitRunsLast(tail);
      assert SplitRuns(s) == [s[..n], rest[..m]] + SplitRuns(tail);
    }
  }

  /** Two well-shaped run lists glued around a digit run are well shaped when
      the text runs at the joint are not empty (or are the ends). */
  lemma {:induction false} RunShapeGlue(ra: seq<string>, d: string, rb: seq<string>)
    requires RunShape(ra) && RunShape(rb)
    requires d != [] && AllDigits(d)
    requires |ra| == 1 || ra[|ra| - 1] != []
    requires |rb| == 1 || rb[0] != []
    ensures RunShape(ra + [d] + rb)
    decreases |ra|
  {
    if |ra| == 1 {
      assert ra + [d] + rb == [ra[0], d] + rb;
      RunShapeCons(ra[0], d, rb);
    } else {
      var tail := ra[2..];
      assert RunShape(tail) by {
        forall i | 0 <= i < |tail| ensures tail[i] == ra[i + 2] {
        }
      }
      assert tail[|tail| - 1] == ra[|ra| - 1];
      RunShapeGlue(tail, d, rb);
      assert ra + [d] + rb == [ra[0], ra[1]] + (tail + [d] + rb);
      assert (tail + [d] + rb)[0] == ra[2];
      RunShapeCons(ra[0], ra[1], tail + [d] + rb);
    }
  }

  /** The run before a digit run glued after the split of `a` is not empty,
      or is the first. */
  lemma JointBefore(a: string)
    requires a == [] || !IsDigit(a[|a| - 1])
    ensures RunShape(SplitRuns(a))
    ensures |SplitRuns(a)| == 1 || SplitRuns(a)[|SplitRuns(a)| - 1] != []
  {
    SplitRunsShape(a);
    if a != [] {
      SplitRunsLast(a);
    }
  }

  /** The run after a digit run glued before the split of `b` is not empty,
      or is the last. */
  lemma JointAfter(b: string)
    requires b == [] || !IsDigit(b[0])
    ensures RunShape(SplitRuns(b))
    ensures |SplitRuns(b)| == 1 || SplitRuns(b)[0] != []
  {
    SplitRunsShape(b);
  }

  lemma ConcatGlue(ra: seq<string>, d: string, rb: seq<string>)
    ensures Concat(ra + [d] + rb) == Concat(ra) + d + Concat(rb)
  {
    ConcatAppend(ra + [d], rb);
    ConcatAppend(ra, [d]);
    assert Concat([d]) == d + Concat([]);
  }

  /** The split of a name whose digit run `d` has text, or nothing, on both
      sides: the runs of the part before, `d`, and the runs of the part after. */
  lemma SplitAround(a: string, d: string, b: string)
    requires a == [] || !IsDigit(a[|a| - 1])
    requires d != [] && AllDigits(d)
    requires b == [] || !IsDigit(b[0])
    ensures SplitRuns(a + d + b) == SplitRuns(a) + [d] + SplitRuns(b)
  {
    var ra, rb := SplitRuns(a), SplitRuns(b);
    JointBefore(a);
    JointAfter(b);
    RunShapeGlue(ra, d, rb);
    ConcatGlue(ra, d, rb);
    SplitRunsConcat(a);
    SplitRunsConcat(b);
    SplitConcatInverse(ra + [d] + rb);
  }

  /** Names that differ only in one number, a maximal digit run, order by
      that number's value, whatever text and numbers come before or after it. */
  lemma NumberDecides(a: string, d1: string, d2: string, b: string)
    requires a == [] || !IsDigit(a[|a| - 1])
    requires b == [] || !IsDigit(b[0])
    requires d1 != [] && AllDigits(d1) && d2 != [] && AllDigits(d2)
    requires DigitsValue(d1) < DigitsValue(d2)
    ensures KeyLess(NaturalKey(a + d1 + b), NaturalKey(a + d2 + b))
  {
    var ra, rb := SplitRuns(a), SplitRuns(b);
    SplitAround(a, d1, b);
    SplitAround(a, d2, b);
    KeyOfRunsAppend(ra + [d1], rb);
    KeyOfRunsAppend(ra, [d1]);
    KeyOfRunsAppend(ra + [d2], rb);
    KeyOfRunsAppend(ra, [d2]);
    var t1, t2 := Num(DigitsValue(d1)), Num(DigitsValue(d2));
    assert KeyOfRuns([d1]) == [t1] && KeyOfRuns([d2]) == [t2];
    KeyLessAfterPrefix(KeyOfRuns(ra), t1, t2, KeyOfRuns(rb), KeyOfRuns(rb));
  }

  lemma KeyLessAsymmetric(a: seq<Token>, b: seq<Token>)
    requires KeyLess(a, b)
    ensures !KeyLess(b, a)
  {
    if KeyLess(b, a) {
      KeyLessTransitive(a, b, a);
      KeyLessIrreflexive(a);
    }
  }

  /** The example the comparator exists for: `image2.png` sorts strictly before
      `image10.png`. */
  lemma Image2BeforeImage10()
    ensures KeyLess(NaturalKey("image2.png"), NaturalKey("image10.png"))
    ensures !KeyLess(NaturalKey("image10.png"), NaturalKey("image2.png"))
  {
    assert "image2.png" == "image" + "2" + ".png";
    assert "image10.png" == "image" + "10" + ".png";
    assert DigitsValue("2") == 2 && DigitsValue("10") == 10;
    NumberDecides("image", "2", "10", ".png");
    KeyLessAsymmetric(NaturalKey("image2.png"), NaturalKey("image10.png"));
  }

  /** The number that differs decides even after an earlier number. */
  lemma ChapterFigures()
    ensures KeyLess(NaturalKey("ch1_fig2.png"), NaturalKey("ch1_fig10.png"))
  {
    assert "ch1_fig2.png" == "ch1_fig" + "2" + ".png";
    assert "ch1_fig10.png" == "ch1_fig" + "10" + ".png";
    assert DigitsValue("2") == 2 && DigitsValue("10") == 10;
    NumberDecides("ch1_fig", "2", "10", ".png");
  }

  /** Plain string order puts the same two names the other way round. */
  lemma PlainOrderInverts()
    ensures StrLess("image10.png", "image2.png")
  {
  }

  // `image_files.sort(key=natural_sort_key)`: Python's sort is stable, so it is
  // modelled by a stable insertion sort on the sequence.

  /** Every name sorts no earlier than the names before it. */
  ghost predicate SortedByKey(s: seq<string>) {
    forall i, j | 0 <= i < j < |s| :: KeyLe(s[i], s[j])
  }

  /** Inserts `x` in front of the first element whose key is not below its own. */
  function Insert(x: string, s: seq<string>): (r: seq<string>)
    ensures multiset(r) == multiset(s) + multiset{x}
  {
    if s == [] then [x]
    else if !KeyLess(NaturalKey(s[0]), NaturalKey(x)) then [x] + s
    else
      assert s == [s[0]] + s[1..];
      [s[0]] + Insert(x, s[1..])
  }

  lemma SortedCons(x: string, s: seq<string>)
    requires SortedByKey(s)
    requires forall y | y in s :: KeyLe(x, y)
    ensures SortedByKey([x] + s)
  {
    var full := [x] + s;
    forall i, j | 0 <= i < j < |full| ensures KeyLe(full[i], full[j]) {
      assert full[j] == s[j - 1];
      if i > 0 {
        assert full[i] == s[i - 1];
      }
    }
  }

  lemma {:induction false} InsertSorted(x: string, s: seq<string>)
    requires SortedByKey(s)
    ensures SortedByKey(Insert(x, s))
  {
    if s == [] {
    } else if !KeyLess(NaturalKey(s[0]), NaturalKey(x)) {
      forall y | y in s ensures KeyLe(x, y) {
        var j :| 0 <= j < |s| && s[j] == y;
        if j > 0 {
          KeyLeTransitive(x, s[0], s[j]);
        }
      }
      SortedCons(x, s);
    } else {
      var t := s[1..];
      assert SortedByKey(t);
      InsertSorted(x, t);
      var r := Insert(x, t);
      KeyLeTotal(x, s[0]);
      forall y | y in r ensures KeyLe(s[0], y) {
        assert y in multiset(r);
        if y != x {
          assert y in t;
        }
      }
      SortedCons(s[0], r);
    }
  }

  /** The list of names in natural order: sorted by the key and a permutation
      of the input. */
  function SortNatural(s: seq<string>): (r: seq<string>)
    ensures SortedByKey(r)
    ensures multiset(r) == multiset(s)
  {
    if s == [] then []
    else
      var rest := SortNatural(s[1..]);
      InsertSorted(s[0], rest);
      assert s == [s[0]] + s[1..];
      Insert(s[0], rest)
  }
}
