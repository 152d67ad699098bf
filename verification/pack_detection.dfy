/**
  Multi-pack detection on scanned product names: the pack-size patterns,
  the quantity they yield, and the cleaned-up name with every pack
  reference removed.

  The patterns come in three shapes, with `\d` the ASCII digits, `\s` the
  class `[ \t\n\x0B\f\r]` and `\b` an ASCII word boundary.  Case is
  ignored for ASCII letters only: the platform's case-insensitive matching
  also folds a few other characters onto pattern letters (the Kelvin sign
  onto "k", the long s onto "s"), which this model does not.  For each shape a greedy backtracking matcher can only
  succeed with every run (digits, spaces) taken whole, so a match at a
  position is determined by maximal runs, which is how `MatchAt` computes it.
 */
module PackDetection {
  import opened Wrappers
  import Text
  import Decimal
  import Sequences

  datatype Pattern =
    | CountWord(word: string)    // (\d+)[-\s]word
    | WordOfCount(word: string)  // word\s+of\s+(\d+)
    | CountUnit(unit: string)    // (\d+)\s*unit\b

  /** `PACK_PATTERNS`, in the order they are tried. */
  const PackPatterns: seq<Pattern> := [
    CountWord("pack"), CountWord("piece"), CountWord("set"), CountWord("count"), CountWord("bundle"),
    WordOfCount("pack"), WordOfCount("set"), WordOfCount("bundle"),
    CountUnit("ct"), CountUnit("pk"), CountUnit("pc")
  ]

  /** A match `[start, end)` and the text of its digit group. */
  datatype Match = Match(start: nat, end: nat, group: string)

  /** The end of the longest run of digits starting at `i`. */
  function DigitRun(s: string, i: nat): (j: nat)
    requires i <= |s|
    ensures i <= j <= |s|
    ensures forall k :: i <= k < j ==> Text.IsDigit(s[k])
    ensures j == |s| || !Text.IsDigit(s[j])
    decreases |s| - i
  {
    if i < |s| && Text.IsDigit(s[i]) then DigitRun(s, i + 1) else i
  }

  /** The end of the longest run of `\s` characters starting at `i`. */
  function SpaceRun(s: string, i: nat): (j: nat)
    requires i <= |s|
    ensures i <= j <= |s|
    ensures forall k :: i <= k < j ==> Text.IsRegexSpace(s[k])
    ensures j == |s| || !Text.IsRegexSpace(s[j])
    decreases |s| - i
  {
    if i < |s| && Text.IsRegexSpace(s[i]) then SpaceRun(s, i + 1) else i
  }

  /** The lower-case `word` occurs at `i`, ignoring ASCII case. */
  predicate WordAt(s: string, i: nat, word: string) {
    i + |word| <= |s| && Text.Lower(s[i..i + |word|]) == word
  }

  /** `\w`: an ASCII letter, digit or underscore. */
  predicate IsWordChar(c: char) {
    Text.IsLetter(c) || Text.IsDigit(c) || c == '_'
  }

  /** The match of `p` that starts at `i`, if there is one. */
  function MatchAt(p: Pattern, s: string, i: nat): (r: Option<Match>)
    requires i <= |s|
    ensures r.Some? ==> r.value.start == i < r.value.end <= |s|
    ensures r.Some? ==> r.value.group != [] && Decimal.AllDigits(r.value.group)
  {
    match p
    case CountWord(word) =>
      var j := DigitRun(s, i);
      if j > i && j < |s| && (s[j] == '-' || Text.IsRegexSpace(s[j])) && WordAt(s, j + 1, word)
      then Some(Match(i, j + 1 + |word|, s[i..j]))
      else None
    case WordOfCount(word) =>
      if !WordAt(s, i, word) then None
      else
        var a := SpaceRun(s, i + |word|);
        if a == i + |word| || !WordAt(s, a, "of") then None
        else
          var b := SpaceRun(s, a + 2);
          var c := DigitRun(s, b);
          if b == a + 2 || c == b then None
          else Some(Match(i, c, s[b..c]))
    case CountUnit(unit) =>
      var j := DigitRun(s, i);
      var k := SpaceRun(s, j);
      if j > i && WordAt(s, k, unit) && (k + |unit| == |s| || !IsWordChar(s[k + |unit|]))
      then Some(Match(i, k + |unit|, s[i..j]))
      else None
  }

  /** `Regex.find(s, i)`: the leftmost match starting at or after `i`. */
  function FindFrom(p: Pattern, s: string, i: nat): (r: Option<Match>)
    requires i <= |s|
    ensures r.Some? ==> i <= r.value.start <= |s| && MatchAt(p, s, r.value.start) == r
    ensures r.Some? ==> forall k :: i <= k < r.value.start ==> MatchAt(p, s, k).None?
    ensures r.None? ==> forall k :: i <= k <= |s| ==> MatchAt(p, s, k).None?
    decreases |s| - i
  {
    var m := MatchAt(p, s, i);
    if m.Some? then m
    else if i == |s| then None
    else FindFrom(p, s, i + 1)
  }

  function Find(p: Pattern, s: string): Option<Match> {
    FindFrom(p, s, 0)
  }

  /** `Regex.replace(s, "")` from position `i`: every match found left to right is cut out. */
  function ReplaceFrom(p: Pattern, s: string, i: nat): (r: string)
    requires i <= |s|
    ensures |r| <= |s| - i
    ensures FindFrom(p, s, i).None? <==> r == s[i..]
    decreases |s| - i
  {
    match FindFrom(p, s, i)
    case None => s[i..]
    case Some(m) => s[i..m.start] + ReplaceFrom(p, s, m.end)
  }

  function RemoveAll(p: Pattern, s: string): (r: string)
    ensures |r| <= |s|
    ensures Find(p, s).None? <==> r == s
  {
    ReplaceFrom(p, s, 0)
  }

  // ---------------------------------------------------------------------------
  // Quantity

  /** The number in the first match of `p`, read with `toIntOrNull`. */
  function FirstQuantity(p: Pattern, s: string): Option<int> {
    match Find(p, s)
    case None => None
    case Some(m) => Decimal.Parse(m.group)
  }

  predicate InRange(q: Option<int>) {
    q.Some? && 1 <= q.value <= 999
  }

  /** Tries the patterns from index `k` on. */
  function QuantityFrom(s: string, k: nat): (r: Option<int>)
    requires k <= |PackPatterns|
    ensures r.Some? ==> 1 <= r.value <= 999
    decreases |PackPatterns| - k
  {
    if k == |PackPatterns| then None
    else
      var q := FirstQuantity(PackPatterns[k], s);
      if InRange(q) then q else QuantityFrom(s, k + 1)
  }

  /** `extractQuantityFromProductName`. */
  function ExtractQuantity(productName: Option<string>): (r: Option<int>)
    ensures productName.None? ==> r.None?
    ensures r.Some? ==> 1 <= r.value <= 999
  {
    match productName
    case None => None
    case Some(s) => QuantityFrom(s, 0)
  }

  /**
    The quantity is the one of the first pattern, in list order, whose
    first match holds a number in 1..999; a pattern whose first match is out
    of range is skipped as a whole, and with no such pattern there is none.
   */
  lemma {:induction false} QuantityFromFirstInRange(s: string, k: nat)
    requires k <= |PackPatterns|
    ensures QuantityFrom(s, k).None? <==> forall j :: k <= j < |PackPatterns| ==> !InRange(FirstQuantity(PackPatterns[j], s))
    ensures QuantityFrom(s, k).Some? ==>
      exists j :: k <= j < |PackPatterns| && FirstQuantity(PackPatterns[j], s) == QuantityFrom(s, k)
        && forall i :: k <= i < j ==> !InRange(FirstQuantity(PackPatterns[i], s))
    decreases |PackPatterns| - k
  {
    if k < |PackPatterns| {
      var q := FirstQuantity(PackPatterns[k], s);
      if InRange(q) {
        assert QuantityFrom(s, k) == q;
      } else {
        assert QuantityFrom(s, k) == QuantityFrom(s, k + 1);
        QuantityFromFirstInRange(s, k + 1);
        assert (forall j :: k <= j < |PackPatterns| ==> !InRange(FirstQuantity(PackPatterns[j], s)))
           <==> (forall j :: k + 1 <= j < |PackPatterns| ==> !InRange(FirstQuantity(PackPatterns[j], s)));
        if QuantityFrom(s, k + 1).Some? {
          var j :| k + 1 <= j < |PackPatterns| && FirstQuantity(PackPatterns[j], s) == QuantityFrom(s, k + 1)
            && forall i :: k + 1 <= i < j ==> !InRange(FirstQuantity(PackPatterns[i], s));
          assert forall i :: k <= i < j ==> !InRange(FirstQuantity(PackPatterns[i], s));
        }
      }
    }
  }

  /**
    "0 pack 2 pack": the first "pack" match reads 0, so that pattern is
    dropped although its second match reads 2.
   */
  lemma OutOfRangeFirstMatchSkipsPattern()
    ensures FirstQuantity(CountWord("pack"), "0 pack 2 pack") == Some(0)
    ensures MatchAt(CountWord("pack"), "0 pack 2 pack", 7) == Some(Match(7, 13, "2"))
    ensures QuantityFrom("0 pack 2 pack", 0) == QuantityFrom("0 pack 2 pack", 1)
  {
    FirstPackReadsZero();
    SecondPackReadsTwo();
    assert PackPatterns[0] == CountWord("pack");
  }

  lemma FirstPackReadsZero()
    ensures FirstQuantity(CountWord("pack"), "0 pack 2 pack") == Some(0)
  {
    var s := "0 pack 2 pack";
    var p := CountWord("pack");
    assert Text.Lower("pack") == "pack";
    assert DigitRun(s, 1) == 1;
    assert DigitRun(s, 0) == 1;
    assert s[2..6] == "pack" && s[0..1] == "0";
    assert WordAt(s, 2, "pack");
    assert MatchAt(p, s, 0) == Some(Match(0, 6, "0"));
    assert Find(p, s) == Some(Match(0, 6, "0"));
    assert Decimal.Parse("0") == Some(0) by {
      assert Decimal.DigitsValue("0") == 0;
    }
  }

  lemma SecondPackReadsTwo()
    ensures MatchAt(CountWord("pack"), "0 pack 2 pack", 7) == Some(Match(7, 13, "2"))
  {
    var s := "0 pack 2 pack";
    assert Text.Lower("pack") == "pack";
    assert DigitRun(s, 8) == 8;
    assert DigitRun(s, 7) == 8;
    assert s[9..13] == "pack" && s[7..8] == "2";
    assert WordAt(s, 9, "pack");
  }

  // ---------------------------------------------------------------------------
  // Cleaned name

  /** Every `\s` is a plain space and no two of them are adjacent. */
  predicate SingleSpaced(s: string) {
    && (forall i :: 0 <= i < |s| && Text.IsRegexSpace(s[i]) ==> s[i] == ' ')
    && (forall i :: 0 <= i < |s| - 1 ==> !(Text.IsRegexSpace(s[i]) && Text.IsRegexSpace(s[i + 1])))
  }

  function NotSpace(c: char): bool {
    !Text.IsRegexSpace(c)
  }

  /** `replace(Regex("\\s+"), " ")`: each run of `\s` becomes one space. */
  function CollapseSpaces(s: string): (r: string)
    ensures SingleSpaced(r)
    ensures r == [] <==> s == []
    ensures s != [] ==> (Text.IsRegexSpace(r[0]) <==> Text.IsRegexSpace(s[0]))
    decreases |s|
  {
    if s == [] then []
    else if Text.IsRegexSpace(s[0]) then [' '] + CollapseSpaces(s[SpaceRun(s, 0)..])
    else [s[0]] + CollapseSpaces(s[1..])
  }

  /** Collapsing keeps every other character, in order. */
  lemma {:induction false} CollapseKeepsText(s: string)
    ensures Sequences.Filter(CollapseSpaces(s), NotSpace) == Sequences.Filter(s, NotSpace)
    decreases |s|
  {
    if s != [] {
      var j := if Text.IsRegexSpace(s[0]) then SpaceRun(s, 0) else 1;
      var head := if Text.IsRegexSpace(s[0]) then [' '] else [s[0]];
      var rest := CollapseSpaces(s[j..]);
      assert CollapseSpaces(s) == head + rest;
      calc {
        Sequences.Filter(CollapseSpaces(s), NotSpace);
      == { Sequences.FilterAppend(head, rest, NotSpace); }
        Sequences.Filter(head, NotSpace) + Sequences.Filter(rest, NotSpace);
      == { CollapseKeepsText(s[j..]); HeadText(s, j, head); }
        Sequences.Filter(s[..j], NotSpace) + Sequences.Filter(s[j..], NotSpace);
      == { Sequences.FilterAppend(s[..j], s[j..], NotSpace); assert s[..j] + s[j..] == s; }
        Sequences.Filter(s, NotSpace);
      }
    }
  }

  lemma HeadText(s: string, j: int, head: string)
    requires s != [] && 1 <= j <= |s|
    requires Text.IsRegexSpace(s[0]) ==> head == [' '] && forall i :: 0 <= i < j ==> Text.IsRegexSpace(s[i])
    requires !Text.IsRegexSpace(s[0]) ==> head == [s[0]] && j == 1
    ensures Sequences.Filter(head, NotSpace) == Sequences.Filter(s[..j], NotSpace)
  {
    Sequences.FilterSingle(head[0], NotSpace);
    if Text.IsRegexSpace(s[0]) {
      SpacesVanish(s[..j]);
    } else {
      assert s[..j] == [s[0]];
    }
  }

  lemma {:induction false} SpacesVanish(s: string)
    requires forall i :: 0 <= i < |s| ==> Text.IsRegexSpace(s[i])
    ensures Sequences.Filter(s, NotSpace) == []
    decreases |s|
  {
    if s != [] {
      SpacesVanish(s[..|s| - 1]);
      assert s == s[..|s| - 1] + [s[|s| - 1]];
      Sequences.FilterAppend(s[..|s| - 1], [s[|s| - 1]], NotSpace);
    }
  }

  /** Collapsing a single-spaced text changes nothing, so collapsing is idempotent. */
  lemma {:induction false} CollapseSingleSpaced(s: string)
    requires SingleSpaced(s)
    ensures CollapseSpaces(s) == s
    decreases |s|
  {
    if s != [] {
      if Text.IsRegexSpace(s[0]) {
        assert SpaceRun(s, 0) == 1 by {
          assert |s| == 1 || !Text.IsRegexSpace(s[1]);
          if |s| > 1 { assert SpaceRun(s, 1) == 1; }
        }
      }
      CollapseSingleSpaced(s[1..]);
    }
  }

  /**
    The regex `[,\-]\s*$` matches at `i`: a comma or dash followed only by
    `\s`.  The platform's `$` also matches before one final line
    terminator; since `\s` runs have already become single spaces, that
    differs only for a name ending in U+0085, U+2028 or U+2029, which this
    model does not treat specially.
   */
  predicate SeparatorTail(s: string, i: int) {
    && 0 <= i < |s| && (s[i] == ',' || s[i] == '-')
    && forall j :: i < j < |s| ==> Text.IsRegexSpace(s[j])
  }

  /** Drops trailing `\s` characters. */
  function TrimSpacesEnd(s: string): (r: string)
    ensures |r| <= |s| && r == s[..|r|]
    ensures r == [] || !Text.IsRegexSpace(r[|r| - 1])
    ensures forall i :: |r| <= i < |s| ==> Text.IsRegexSpace(s[i])
  {
    if s != [] && Text.IsRegexSpace(s[|s| - 1]) then TrimSpacesEnd(s[..|s| - 1]) else s
  }

  /**
    `replace(Regex("[,\\-]\\s*$"), "")`: cuts the text at the one position
    where the pattern can match, or leaves it alone when there is none.
   */
  function DropTrailingSeparator(s: string): (r: string)
    ensures r <= s
    ensures r != s ==> SeparatorTail(s, |r|)
    ensures r == s ==> forall i :: !SeparatorTail(s, i)
  {
    var t := TrimSpacesEnd(s);
    if t != [] && (t[|t| - 1] == ',' || t[|t| - 1] == '-') then
      assert SeparatorTail(s, |t| - 1);
      t[..|t| - 1]
    else
      assert forall i :: !SeparatorTail(s, i) by {
        forall i | 0 <= i < |s| ensures !SeparatorTail(s, i) {
          if i < |t| - 1 {
            assert !Text.IsRegexSpace(s[|t| - 1]);
          }
        }
      }
      s
  }

  /** Removing every pattern in turn, trimming after each one. */
  function RemovePatterns(s: string, k: nat): string
    requires k <= |PackPatterns|
    decreases |PackPatterns| - k
  {
    if k == |PackPatterns| then s
    else RemovePatterns(Text.Trim(RemoveAll(PackPatterns[k], s)), k + 1)
  }

  /** The final tidy-up: collapse spaces, drop one trailing separator, trim. */
  function Tidy(s: string): string {
    Text.Trim(DropTrailingSeparator(CollapseSpaces(s)))
  }

  function CleanName(productName: string): string {
    Tidy(RemovePatterns(productName, 0))
  }

  datatype PackInfo = PackInfo(originalName: string, detectedQuantity: int, cleanedName: string)

  /** `extractPackInfo`. */
  function ExtractPackInfo(productName: string): (r: Option<PackInfo>)
    ensures r.None? <==> ExtractQuantity(Some(productName)).None?
    ensures r.Some? ==> r.value.originalName == productName
    ensures r.Some? ==> Some(r.value.detectedQuantity) == ExtractQuantity(Some(productName))
  {
    match ExtractQuantity(Some(productName))
    case None => None
    case Some(q) => Some(PackInfo(productName, q, CleanName(productName)))
  }

  lemma SingleSpacedSlice(s: string, i: int, j: int)
    requires SingleSpaced(s) && 0 <= i <= j <= |s|
    ensures SingleSpaced(s[i..j])
  {
    assert forall k :: 0 <= k < j - i ==> s[i..j][k] == s[i + k];
  }

  /**
    The cleaned name has single plain spaces between its parts and no
    whitespace at either end.
   */
  lemma CleanNameShape(productName: string)
    ensures var c := CleanName(productName);
      && SingleSpaced(c)
      && (c == [] || (!Text.IsWhitespace(c[0]) && !Text.IsWhitespace(c[|c| - 1])))
  {
    TidyShape(RemovePatterns(productName, 0));
  }

  lemma TidyShape(s: string)
    ensures SingleSpaced(Tidy(s))
  {
    var collapsed := CollapseSpaces(s);
    var dropped := DropTrailingSeparator(collapsed);
    SingleSpacedSlice(collapsed, 0, |dropped|);
    assert dropped == collapsed[0..|dropped|];
    TrimKeepsSingleSpaced(dropped);
  }

  lemma TrimKeepsSingleSpaced(s: string)
    requires SingleSpaced(s)
    ensures SingleSpaced(Text.Trim(s))
  {
    var c := Text.Trim(s);
    assert Text.Contains(s, c);
    var i :| 0 <= i <= |s| && Text.OccursAt(s, c, i);
    SingleSpacedSlice(s, i, i + |c|);
  }
}
