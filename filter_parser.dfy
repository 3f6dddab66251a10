/**
 * The scanner behind `FxFilter.parseFilterValue`: the global regular
 * expression `(\w+(?:-\w+)*)\s*\(([^)]*)\)` run with `exec` from
 * `lastIndex` until it fails, each match classified as a registered custom
 * filter (with parsed parameters) or a native CSS filter (kept as text).
 */
module FilterParser {
  import opened Wrappers
  import opened JsText
  import opened ParseFloat

  /** A custom filter's parameter: what `parseFloat` made of it, or the trimmed text it rejected. */
  datatype Param = Num(number: Number) | Str(text: string)

  datatype CustomFilter = CustomFilter(name: string, params: seq<Param>)

  /** One item of `orderedFilters`: `{type: 'css', filter}` or `{type: 'custom', filter}`. */
  datatype OrderedFilter = Css(text: string) | Custom(filter: CustomFilter)

  /**
   * `s[i..j]` is a filter name: one or more `\w` runs joined by single
   * hyphens (it starts with a word character, and every hyphen is followed,
   * inside the name, by a word character).
   */
  predicate IsNameIn(s: string, i: nat, j: nat) {
    i < j <= |s| && IsWordChar(s[i])
    && (forall k :: i <= k < j ==> NameChar(s, k))
    && (forall k :: i <= k < j ==> HyphenJoins(s, k, j))
  }

  /** Position `k` holds a word character or a hyphen. */
  predicate NameChar(s: string, k: nat) {
    k < |s| && (IsWordChar(s[k]) || s[k] == '-')
  }

  /** A hyphen at `k` is followed, before `j`, by a word character. */
  predicate HyphenJoins(s: string, k: nat, j: nat) {
    k < |s| && s[k] == '-' ==> k + 1 < j && k + 1 < |s| && IsWordChar(s[k + 1])
  }

  /** The end of the run of word characters that starts at `i`. */
  function WordEnd(s: string, i: nat): (j: nat)
    requires i <= |s|
    ensures i <= j <= |s|
    ensures i < |s| && IsWordChar(s[i]) ==> i < j
    decreases |s| - i
  {
    if i < |s| && IsWordChar(s[i]) then WordEnd(s, i + 1) else i
  }

  /** The run ends at the first character that is not a word character. */
  lemma {:induction false} WordEndRun(s: string, i: nat)
    requires i <= |s|
    ensures forall k :: i <= k < WordEnd(s, i) ==> IsWordChar(s[k])
    ensures WordEnd(s, i) < |s| ==> !IsWordChar(s[WordEnd(s, i)])
    decreases |s| - i
  {
    if i < |s| && IsWordChar(s[i]) {
      WordEndRun(s, i + 1);
    }
  }

  /**
   * Where the greedy `\w+(?:-\w+)*` starting at `i` stops: it has read a
   * name, and neither another word character nor a hyphen followed by a
   * word character comes next.
   */
  function NameEnd(s: string, i: nat): (j: nat)
    requires i < |s| && IsWordChar(s[i])
    ensures i < j <= |s|
    decreases |s| - i
  {
    var w := WordEnd(s, i);
    if w + 1 < |s| && s[w] == '-' && IsWordChar(s[w + 1]) then NameEnd(s, w + 1) else w
  }

  /** The greedy name scan reads a whole name and stops where nothing can extend it. */
  lemma {:induction false} NameEndIsName(s: string, i: nat)
    requires i < |s| && IsWordChar(s[i])
    ensures IsNameIn(s, i, NameEnd(s, i))
    ensures NameEnd(s, i) < |s| ==> !IsWordChar(s[NameEnd(s, i)])
    ensures NameEnd(s, i) + 1 < |s| && s[NameEnd(s, i)] == '-' ==> !IsWordChar(s[NameEnd(s, i) + 1])
    decreases |s| - i
  {
    var w := WordEnd(s, i);
    WordEndRun(s, i);
    if w + 1 < |s| && s[w] == '-' && IsWordChar(s[w + 1]) {
      NameEndIsName(s, w + 1);
      NameJoin(s, i, w, NameEnd(s, w + 1));
    } else {
      assert forall k :: i <= k < w ==> NameChar(s, k) && HyphenJoins(s, k, w);
    }
  }

  /** A word run, a hyphen and a name make a name. */
  lemma NameJoin(s: string, i: nat, w: nat, j: nat)
    requires i < w && w + 1 < |s| && s[w] == '-'
    requires forall k :: i <= k < w ==> IsWordChar(s[k])
    requires IsNameIn(s, w + 1, j)
    ensures IsNameIn(s, i, j)
  {
    forall k | i <= k < j ensures NameChar(s, k) && HyphenJoins(s, k, j) {
      if k >= w + 1 {
        assert NameChar(s, k) && HyphenJoins(s, k, j);
      }
    }
  }

  /** The end of the run of white space that starts at `i`. */
  function SpaceEnd(s: string, i: nat): (j: nat)
    requires i <= |s|
    ensures i <= j <= |s|
    decreases |s| - i
  {
    if i < |s| && IsSpace(s[i]) then SpaceEnd(s, i + 1) else i
  }

  /** The run ends at the first character that is not white space. */
  lemma {:induction false} SpaceEndRun(s: string, i: nat)
    requires i <= |s|
    ensures forall k :: i <= k < SpaceEnd(s, i) ==> IsSpace(s[k])
    ensures SpaceEnd(s, i) < |s| ==> !IsSpace(s[SpaceEnd(s, i)])
    decreases |s| - i
  {
    if i < |s| && IsSpace(s[i]) {
      SpaceEndRun(s, i + 1);
    }
  }

  /** The first position at or after `i` holding `c`. */
  function FindChar(s: string, i: nat, c: char): (r: Option<nat>)
    requires i <= |s|
    ensures r.Some? ==> i <= r.value < |s| && s[r.value] == c
    decreases |s| - i
  {
    if i == |s| then None else if s[i] == c then Some(i) else FindChar(s, i + 1, c)
  }

  /** No position before the one found (or before the end, when none is found) holds `c`. */
  lemma {:induction false} FindCharFirst(s: string, i: nat, c: char)
    requires i <= |s|
    ensures var r := FindChar(s, i, c);
            forall k :: i <= k < (if r.Some? then r.value else |s|) ==> s[k] != c
    decreases |s| - i
  {
    if i < |s| && s[i] != c {
      FindCharFirst(s, i + 1, c);
    }
  }

  /**
   * One match: the name is `s[start..nameEnd]`, the parentheses are at
   * `open` and `close`, the parameter text lies between them, and the match
   * ends (and `lastIndex` resumes) at `close + 1`.
   */
  datatype Match = Match(start: nat, nameEnd: nat, open: nat, close: nat)

  /** The positions of a match lie in order inside the text. */
  predicate InBounds(s: string, m: Match) {
    m.start < m.nameEnd <= m.open < m.close < |s|
  }

  /** What the regular expression demands of a match at `m.start`. */
  predicate MatchShape(s: string, m: Match) {
    && InBounds(s, m)
    && IsNameIn(s, m.start, m.nameEnd)
    && (forall k :: m.nameEnd <= k < m.open ==> IsSpace(s[k]))
    && s[m.open] == '('
    && (forall k :: m.open < k < m.close ==> s[k] != ')')
    && s[m.close] == ')'
  }

  /** The match the regular expression finds when it is tried at position `i`. */
  function MatchAt(s: string, i: nat): (r: Option<Match>)
    ensures r.Some? ==> r.value.start == i && InBounds(s, r.value)
  {
    if i < |s| && IsWordChar(s[i]) then
      var n := NameEnd(s, i);
      var o := SpaceEnd(s, n);
      if o < |s| && s[o] == '(' then
        match FindChar(s, o + 1, ')')
        case Some(c) => Some(Match(i, n, o, c))
        case None => None
      else None
    else None
  }

  /** A match found at `i` has the shape the expression demands. */
  lemma MatchAtSound(s: string, i: nat)
    requires MatchAt(s, i).Some?
    ensures MatchShape(s, MatchAt(s, i).value)
  {
    var m := MatchAt(s, i).value;
    NameEndIsName(s, i);
    SpaceEndRun(s, m.nameEnd);
    FindCharFirst(s, m.open + 1, ')');
  }

  /** The greedy name scan stops exactly where a name ends before a character that cannot extend it. */
  lemma {:induction false} NameEndAt(s: string, i: nat, j: nat)
    requires IsNameIn(s, i, j)
    requires j < |s| ==> !IsWordChar(s[j]) && s[j] != '-'
    ensures NameEnd(s, i) == j
    decreases j - i
  {
    var w := WordEnd(s, i);
    WordEndRun(s, i);
    if w < j {
      assert NameChar(s, w) && HyphenJoins(s, w, j);
      assert s[w] == '-';
      assert IsNameIn(s, w + 1, j) by {
        forall k | w + 1 <= k < j
          ensures NameChar(s, k) && HyphenJoins(s, k, j)
        {
          assert NameChar(s, k) && HyphenJoins(s, k, j);
        }
      }
      NameEndAt(s, w + 1, j);
    }
  }

  /** The regular expression matches every text of the right shape: the match of `MatchShape` is the only one at its start. */
  lemma MatchAtComplete(s: string, m: Match)
    requires MatchShape(s, m)
    ensures MatchAt(s, m.start) == Some(m)
  {
    NameEndBeforeSpace(s, m);
    SpaceEndAt(s, m.nameEnd, m.open);
    FindCharAt(s, m.open + 1, m.close, ')');
  }

  /** The name of a well-shaped match is followed by a space or the opening parenthesis. */
  lemma NameEndBeforeSpace(s: string, m: Match)
    requires MatchShape(s, m)
    ensures NameEnd(s, m.start) == m.nameEnd
  {
    if m.nameEnd < m.open {
      assert IsSpace(s[m.nameEnd]);
    }
    NameEndAt(s, m.start, m.nameEnd);
  }

  /** The space scan stops at the first character that is not white space. */
  lemma {:induction false} SpaceEndAt(s: string, i: nat, j: nat)
    requires i <= j < |s| && !IsSpace(s[j])
    requires forall k :: i <= k < j ==> IsSpace(s[k])
    ensures SpaceEnd(s, i) == j
    decreases j - i
  {
    if i < j {
      SpaceEndAt(s, i + 1, j);
    }
  }

  /** The character search stops at the first occurrence. */
  lemma {:induction false} FindCharAt(s: string, i: nat, j: nat, c: char)
    requires i <= j < |s| && s[j] == c
    requires forall k :: i <= k < j ==> s[k] != c
    ensures FindChar(s, i, c) == Some(j)
    decreases j - i
  {
    if i < j {
      FindCharAt(s, i + 1, j, c);
    }
  }

  /** `exec` from `lastIndex == from`: the match at the leftmost position at or after `from` that starts one. */
  function FirstMatch(s: string, from: nat): (r: Option<Match>)
    ensures r.Some? ==> from <= r.value.start && InBounds(s, r.value)
    decreases |s| - from
  {
    if from >= |s| then None
    else if MatchAt(s, from).Some? then MatchAt(s, from)
    else FirstMatch(s, from + 1)
  }

  /** What `exec` returns is a match at its start, and no position between `from` and it starts one. */
  lemma FirstMatchLeftmost(s: string, from: nat, p: nat)
    ensures var r := FirstMatch(s, from);
            && (r.Some? ==> MatchAt(s, r.value.start) == r)
            && (from <= p < (if r.Some? then r.value.start else |s|) ==> MatchAt(s, p).None?)
  {
    var r := FirstMatch(s, from);
    if r.Some? {
      FirstMatchIsMatch(s, from);
    }
    if from <= p < (if r.Some? then r.value.start else |s|) {
      FirstMatchNoneBefore(s, from, p);
    }
  }

  /** One step of the search: the match at `from`, or the search from the next position. */
  lemma FirstMatchStep(s: string, from: nat)
    requires from < |s|
    ensures FirstMatch(s, from) == if MatchAt(s, from).Some? then MatchAt(s, from) else FirstMatch(s, from + 1)
  {
  }

  lemma {:induction false} FirstMatchIsMatch(s: string, from: nat)
    requires FirstMatch(s, from).Some?
    ensures MatchAt(s, FirstMatch(s, from).value.start) == FirstMatch(s, from)
    decreases |s| - from
  {
    if MatchAt(s, from).Some? {
      FirstMatchHere(s, from);
    } else {
      FirstMatchSkip(s, from);
      FirstMatchIsMatch(s, from + 1);
    }
  }

  /** The search stops at `from` when the expression matches there. */
  lemma FirstMatchHere(s: string, from: nat)
    requires MatchAt(s, from).Some?
    ensures FirstMatch(s, from) == MatchAt(s, from) && MatchAt(s, from).value.start == from
  {
  }

  /** The search goes on from the next position when the expression does not match at `from`. */
  lemma FirstMatchSkip(s: string, from: nat)
    requires FirstMatch(s, from).Some? && MatchAt(s, from).None?
    ensures FirstMatch(s, from + 1) == FirstMatch(s, from)
  {
  }

  lemma {:induction false} FirstMatchNoneBefore(s: string, from: nat, p: nat)
    requires from <= p < |s|
    requires FirstMatch(s, from).Some? ==> p < FirstMatch(s, from).value.start
    ensures MatchAt(s, p).None?
    decreases |s| - from
  {
    NoMatchAtFrom(s, from);
    if p > from {
      FirstMatchNoneBefore(s, from + 1, p);
    }
  }

  /** When the search does not stop at `from`, nothing matches there and it goes on from the next position. */
  lemma NoMatchAtFrom(s: string, from: nat)
    requires from < |s|
    requires FirstMatch(s, from).Some? ==> from < FirstMatch(s, from).value.start
    ensures MatchAt(s, from).None? && FirstMatch(s, from + 1) == FirstMatch(s, from)
  {
    FirstMatchStep(s, from);
  }

  /** Where the `k`-th stretch of skipped text begins: at `from`, or where match `k - 1` ended. */
  function GapStart(from: nat, ms: seq<Match>, k: nat): nat
    requires k <= |ms|
  {
    if k == 0 then from else ms[k - 1].close + 1
  }

  /** Where the `k`-th stretch of skipped text ends: at match `k`, or at the end of the text. */
  function GapEnd(s: string, ms: seq<Match>, k: nat): nat
    requires k <= |ms|
  {
    if k < |ms| then ms[k].start else |s|
  }

  /**
   * Every match the `exec` loop finds from `from`, in order: each is what
   * the expression matches at its start, and each starts at or after the
   * end of the previous one.
   */
  function Matches(s: string, from: nat): (ms: seq<Match>)
    ensures forall k :: 0 <= k < |ms| ==> from <= ms[k].start && InBounds(s, ms[k])
    decreases |s| - from
  {
    match FirstMatch(s, from)
    case None => []
    case Some(m) => [m] + Matches(s, m.close + 1)
  }

  /** The matches come in order and do not overlap: each starts after the previous one's `)`. */
  lemma {:induction false} MatchesOrdered(s: string, from: nat, i: nat, j: nat)
    requires i < j < |Matches(s, from)|
    ensures Matches(s, from)[i].close < Matches(s, from)[j].start
    decreases |s| - from
  {
    MatchesTail(s, from, j);
    var next := FirstMatch(s, from).value.close + 1;
    var rest := Matches(s, next);
    if i > 0 {
      MatchesTail(s, from, i);
      MatchesOrdered(s, next, i - 1, j - 1);
    } else {
      MatchesHead(s, from);
      assert next <= rest[j - 1].start;
    }
  }

  /** Each item the loop collects is what the expression matches at that item's start. */
  lemma {:induction false} MatchesAreMatches(s: string, from: nat, k: nat)
    requires k < |Matches(s, from)|
    ensures MatchAt(s, Matches(s, from)[k].start) == Some(Matches(s, from)[k])
    decreases |s| - from
  {
    if k > 0 {
      var next := FirstMatch(s, from).value.close + 1;
      MatchesTail(s, from, k);
      MatchesAreMatches(s, next, k - 1);
    } else {
      MatchesHead(s, from);
      FirstMatchIsMatch(s, from);
    }
  }

  /**
   * Text between matches is skipped: no position from `from` up to the
   * first match, between the end of one match and the start of the next,
   * or after the last match, starts a match.
   */
  lemma {:induction false} MatchesSkipOnlyNonMatches(s: string, from: nat, k: nat, p: nat)
    requires k <= |Matches(s, from)|
    requires GapStart(from, Matches(s, from), k) <= p < GapEnd(s, Matches(s, from), k)
    ensures MatchAt(s, p).None?
    decreases |s| - from
  {
    var ms := Matches(s, from);
    if k == 0 {
      FirstMatchLeftmost(s, from, p);
    } else {
      var m := FirstMatch(s, from).value;
      var rest := Matches(s, m.close + 1);
      assert ms == [m] + rest;
      assert GapStart(from, ms, k) == GapStart(m.close + 1, rest, k - 1);
      assert GapEnd(s, ms, k) == GapEnd(s, rest, k - 1);
      MatchesSkipOnlyNonMatches(s, m.close + 1, k - 1, p);
    }
  }

  /** Every collected match has the shape the expression demands. */
  lemma MatchesHaveShape(s: string, from: nat)
    ensures forall k :: 0 <= k < |Matches(s, from)| ==> MatchShape(s, Matches(s, from)[k])
  {
    forall k | 0 <= k < |Matches(s, from)|
      ensures MatchShape(s, Matches(s, from)[k])
    {
      MatchesAreMatches(s, from, k);
      MatchAtSound(s, Matches(s, from)[k].start);
    }
  }

  function MatchName(s: string, m: Match): string
    requires InBounds(s, m)
  {
    s[m.start..m.nameEnd]
  }

  function MatchParams(s: string, m: Match): string
    requires InBounds(s, m)
  {
    s[m.open + 1..m.close]
  }

  /** A trimmed, non-empty parameter piece: the number `parseFloat` reads from it, or the piece itself. */
  function ClassifyParam(piece: string): (p: Param)
    ensures p.Str? <==> !StartsNumeric(piece)
    ensures p.Str? ==> p.text == piece
    ensures p.Num? ==> ParseFloatPrefix(piece) == Some(p.number)
  {
    match ParseFloatPrefix(piece)
    case Some(n) => Num(n)
    case None => Str(piece)
  }

  /** The pieces of `split(',')`, each trimmed; blank ones are dropped. */
  function ClassifyPieces(pieces: seq<string>): (r: seq<Param>)
  {
    if pieces == [] then []
    else
      var t := Trim(pieces[0]);
      (if t == [] then [] else [ClassifyParam(t)]) + ClassifyPieces(pieces[1..])
  }

  /** A blank piece is dropped: `8,,0.15` gives two parameters, not three. */
  lemma {:induction false} ClassifyPiecesSkipsBlank(before: seq<string>, piece: string, after: seq<string>)
    requires AllSpace(piece)
    ensures ClassifyPieces(before + [piece] + after) == ClassifyPieces(before + after)
    decreases |before|
  {
    if before == [] {
      ClassifyPiecesCons(piece, after);
      assert before + [piece] + after == [piece] + after;
      assert before + after == after;
    } else {
      var tail := before[1..];
      assert before + [piece] + after == [before[0]] + (tail + [piece] + after);
      assert before + after == [before[0]] + (tail + after);
      ClassifyPiecesCons(before[0], tail + [piece] + after);
      ClassifyPiecesCons(before[0], tail + after);
      ClassifyPiecesSkipsBlank(tail, piece, after);
    }
  }

  lemma ClassifyPiecesCons(p: string, rest: seq<string>)
    ensures ClassifyPieces([p] + rest) == (if Trim(p) == [] then [] else [ClassifyParam(Trim(p))]) + ClassifyPieces(rest)
  {
    assert ([p] + rest)[1..] == rest;
  }

  /** The parameters of a custom filter, from the text between its parentheses. */
  function ParseParams(params: string): (r: seq<Param>)
    ensures AllSpace(params) ==> r == []
  {
    if Trim(params) == [] then [] else ClassifyPieces(Split(params, ','))
  }

  lemma ParamsExampleSplit()
    ensures Split("8, 0.15, left", ',') == ["8", " 0.15", " left"]
  {
    var parts := ["8", " 0.15", " left"];
    assert Join(parts, [',']) == "8, 0.15, left";
    SplitJoin(parts, ',');
  }

  lemma ParamsExampleEight()
    ensures Trim("8") == "8" && ClassifyParam("8") == Num(Finite(8.0))
  {
    assert Trim("8") == "8";
    ParseFloatInteger("8", []);
    assert "8" + [] == "8";
  }

  lemma ParamsExampleFraction()
    ensures Trim(" 0.15") == "0.15" && ClassifyParam("0.15") == Num(Finite(0.15))
  {
    assert Trim(" 0.15") == "0.15";
    ParseFloatDecimalExample();
  }

  lemma ParamsExampleWord()
    ensures Trim(" left") == "left" && ClassifyParam("left") == Str("left")
  {
    assert Trim(" left") == "left";
    assert !StartsNumeric("left");
  }

  lemma ParamsExampleLastPiece()
    ensures ClassifyPieces([" left"]) == [Str("left")]
  {
    ParamsExampleWord();
    ClassifyPiecesCons(" left", []);
    assert [" left"] == [" left"] + [];
  }

  lemma ParamsExampleLastPieces()
    ensures ClassifyPieces([" 0.15", " left"]) == [Num(Finite(0.15)), Str("left")]
  {
    ParamsExampleFraction();
    ParamsExampleLastPiece();
    ClassifyPiecesCons(" 0.15", [" left"]);
    assert [" 0.15", " left"] == [" 0.15"] + [" left"];
  }

  lemma ParamsExamplePieces()
    ensures ClassifyPieces(["8", " 0.15", " left"]) == [Num(Finite(8.0)), Num(Finite(0.15)), Str("left")]
  {
    ParamsExampleEight();
    ParamsExampleLastPieces();
    ClassifyPiecesCons("8", [" 0.15", " left"]);
    assert ["8", " 0.15", " left"] == ["8"] + [" 0.15", " left"];
  }

  /** A unit after a number is dropped: `10px` is the number 10. */
  lemma ClassifyParamUnitSuffix()
    ensures ClassifyParam("10px") == Num(Finite(10.0))
  {
    ParseFloatUnitSuffix();
  }

  /** `8, 0.15, left` gives the numbers 8 and 0.15 and the string `left`. */
  lemma ParseParamsExample()
    ensures ParseParams("8, 0.15, left") == [Num(Finite(8.0)), Num(Finite(0.15)), Str("left")]
  {
    ParamsExampleSplit();
    assert !AllSpace("8, 0.15, left") by { assert !IsSpace("8, 0.15, left"[0]); }
    ParamsExamplePieces();
  }

  /** A matched filter: custom when its name is registered, otherwise its CSS text. */
  function Classify(registered: set<string>, name: string, params: string): (f: OrderedFilter)
  {
    if name in registered then Custom(CustomFilter(name, ParseParams(params)))
    else Css(name + "(" + params + ")")
  }

  function ClassifyAll(registered: set<string>, s: string, ms: seq<Match>): (r: seq<OrderedFilter>)
    requires forall k :: 0 <= k < |ms| ==> InBounds(s, ms[k])
    ensures |r| == |ms|
  {
    if ms == [] then []
    else
      var last := ms[|ms| - 1];
      ClassifyAll(registered, s, ms[..|ms| - 1]) + [Classify(registered, MatchName(s, last), MatchParams(s, last))]
  }

  /** `orderedFilters` for a filter value, given the names in the registry at parse time. */
  function Parse(registered: set<string>, s: string): seq<OrderedFilter> {
    ClassifyAll(registered, s, Matches(s, 0))
  }

  /**
   * One turn of the `exec` loop: when the matches found so far and those
   * from `from` make up all of them, the match found from `from` extends the
   * first part, adds its item, and the loop resumes after it.
   */
  lemma ExecStep(s: string, found: seq<Match>, from: nat, m: Match)
    requires Consumed(s, found, from)
    requires FirstMatch(s, from) == Some(m)
    ensures Consumed(s, found + [m], m.close + 1)
  {
    MatchesUnfold(s, from);
    ShiftFront(Matches(s, 0), found, m, Matches(s, m.close + 1));
    AllInBoundsSnoc(s, found, m);
  }

  /** Moving the first element of the remainder to the end of the front keeps the whole. */
  lemma ShiftFront<T>(all: seq<T>, front: seq<T>, x: T, rest: seq<T>)
    requires all == front + ([x] + rest)
    ensures all == (front + [x]) + rest
  {
    AppendAssociates(front, [x], rest);
  }

  lemma AllInBoundsSnoc(s: string, ms: seq<Match>, m: Match)
    requires AllInBounds(s, ms) && InBounds(s, m)
    ensures AllInBounds(s, ms + [m])
  {
    forall k | 0 <= k < |ms + [m]| ensures InBounds(s, (ms + [m])[k]) {
      if k < |ms| {
        assert (ms + [m])[k] == ms[k];
      }
    }
  }

  lemma MatchesHead(s: string, from: nat)
    requires |Matches(s, from)| > 0
    ensures FirstMatch(s, from).Some? && Matches(s, from)[0] == FirstMatch(s, from).value
  {
  }

  lemma MatchesTail(s: string, from: nat, k: nat)
    requires 0 < k < |Matches(s, from)|
    ensures FirstMatch(s, from).Some?
    ensures var next := FirstMatch(s, from).value.close + 1;
            k - 1 < |Matches(s, next)| && Matches(s, from)[k] == Matches(s, next)[k - 1]
  {
    MatchesUnfold(s, from);
  }

  /** The loop's next match is the first of the matches from `from`. */
  lemma MatchesUnfold(s: string, from: nat)
    requires FirstMatch(s, from).Some?
    ensures Matches(s, from) == [FirstMatch(s, from).value] + Matches(s, FirstMatch(s, from).value.close + 1)
  {
  }

  /** When `exec` fails from `from`, the loop has found everything. */
  lemma MatchesNone(s: string, from: nat)
    requires FirstMatch(s, from).None?
    ensures Matches(s, from) == []
  {
  }

  predicate AllInBounds(s: string, ms: seq<Match>) {
    forall k :: 0 <= k < |ms| ==> InBounds(s, ms[k])
  }

  /** The matches found before `from`, followed by those from `from`, are all the matches. */
  predicate Consumed(s: string, found: seq<Match>, from: nat) {
    AllInBounds(s, found) && Matches(s, 0) == found + Matches(s, from)
  }

  /**
   * The `exec` loop's invariant is kept by one turn: the found matches,
   * `orderedFilters` and `customFilters` grow by the next match and its item.
   */
  lemma ParseStep(registered: set<string>, s: string, found: seq<Match>, from: nat, m: Match, item: OrderedFilter,
                  ordered: seq<OrderedFilter>, customs: seq<CustomFilter>,
                  found': seq<Match>, ordered': seq<OrderedFilter>, customs': seq<CustomFilter>)
    requires Consumed(s, found, from)
    requires ordered == ClassifyAll(registered, s, found)
    requires customs == CustomsOf(ordered)
    requires FirstMatch(s, from) == Some(m)
    requires item == Classify(registered, MatchName(s, m), MatchParams(s, m))
    requires found' == found + [m] && ordered' == ordered + [item]
    requires customs' == if item.Custom? then customs + [item.filter] else customs
    ensures Consumed(s, found', m.close + 1)
    ensures ordered' == ClassifyAll(registered, s, found')
    ensures customs' == CustomsOf(ordered')
  {
    assert Consumed(s, found', m.close + 1) by { ExecStep(s, found, from, m); }
    assert ordered' == ClassifyAll(registered, s, found') by { ClassifyAllAppend(registered, s, found, m); }
    assert customs' == CustomsOf(ordered') by {
      CustomsOfPush(ordered, item);
      assert customs + [] == customs;
    }
  }

  /** When `exec` fails, the found matches are all of them. */
  lemma ParseDone(s: string, found: seq<Match>, from: nat)
    requires Consumed(s, found, from)
    requires FirstMatch(s, from).None?
    ensures AllInBounds(s, found) && Matches(s, 0) == found
  {
    MatchesNone(s, from);
    assert found + [] == found;
  }

  /**
   * The `exec` loop of `parseFilterValue` against the names registered
   * when it runs: each match is classified and pushed onto
   * `orderedFilters`, and onto `customFilters` when it is custom.
   */
  method ExecLoop(registered: set<string>, filterValue: string) returns (ordered: seq<OrderedFilter>, customs: seq<CustomFilter>)
    ensures ordered == Parse(registered, filterValue)
    ensures customs == CustomsOf(ordered)
  {
    ordered := [];
    customs := [];
    var lastIndex: nat := 0;
    ghost var found: seq<Match> := [];
    while true
      invariant lastIndex <= |filterValue|
      invariant Consumed(filterValue, found, lastIndex)
      invariant ordered == ClassifyAll(registered, filterValue, found)
      invariant customs == CustomsOf(ordered)
      decreases |filterValue| - lastIndex
    {
      var next := FirstMatch(filterValue, lastIndex);
      if next.None? {
        ParseDone(filterValue, found, lastIndex);
        break;
      }
      var m := next.value;
      var filterName := MatchName(filterValue, m);
      var params := MatchParams(filterValue, m);
      var item := Classify(registered, filterName, params);
      ghost var before := (found, ordered, customs, lastIndex);
      if item.Custom? {
        customs := customs + [item.filter];
      }
      ordered := ordered + [item];
      found := found + [m];
      lastIndex := m.close + 1;
      ParseStep(registered, filterValue, before.0, before.3, m, item, before.1, before.2, found, ordered, customs);
    }
  }

  /** `customFilters`: the custom items of `orderedFilters`, in the same order. */
  function CustomsOf(ordered: seq<OrderedFilter>): seq<CustomFilter>
  {
    if ordered == [] then []
    else
      var last := ordered[|ordered| - 1];
      CustomsOf(ordered[..|ordered| - 1]) + (if last.Custom? then [last.filter] else [])
  }

  /** Pushing an item pushes its filter onto `customFilters` exactly when it is custom. */
  lemma CustomsOfPush(ordered: seq<OrderedFilter>, item: OrderedFilter)
    ensures CustomsOf(ordered + [item]) == CustomsOf(ordered) + (if item.Custom? then [item.filter] else [])
  {
    assert (ordered + [item])[..|ordered|] == ordered;
  }

  lemma {:induction false} CustomsOfAppend(a: seq<OrderedFilter>, b: seq<OrderedFilter>)
    ensures CustomsOf(a + b) == CustomsOf(a) + CustomsOf(b)
  {
    if b == [] {
      assert a + b == a;
    } else {
      var init := b[..|b| - 1];
      var last := b[|b| - 1];
      var tail: seq<CustomFilter> := if last.Custom? then [last.filter] else [];
      assert a + b == (a + init) + [last];
      assert init + [last] == b;
      calc {
        CustomsOf(a + b);
        CustomsOf((a + init) + [last]);
        { CustomsOfPush(a + init, last); }
        CustomsOf(a + init) + tail;
        { CustomsOfAppend(a, init); }
        (CustomsOf(a) + CustomsOf(init)) + tail;
        CustomsOf(a) + (CustomsOf(init) + tail);
        { CustomsOfPush(init, last); }
        CustomsOf(a) + CustomsOf(b);
      }
    }
  }

  /** An item is in `customFilters` exactly when it is a custom item of `orderedFilters`. */
  lemma {:induction false} CustomsOfMembers(ordered: seq<OrderedFilter>, f: CustomFilter)
    ensures f in CustomsOf(ordered) <==> Custom(f) in ordered
  {
    if ordered != [] {
      var init := ordered[..|ordered| - 1];
      CustomsOfMembers(init, f);
      assert ordered == init + [ordered[|ordered| - 1]];
    }
  }

  lemma ClassifyAllAppend(registered: set<string>, s: string, ms: seq<Match>, m: Match)
    requires forall k :: 0 <= k < |ms| ==> InBounds(s, ms[k])
    requires InBounds(s, m)
    ensures ClassifyAll(registered, s, ms + [m])
         == ClassifyAll(registered, s, ms) + [Classify(registered, MatchName(s, m), MatchParams(s, m))]
  {
    assert (ms + [m])[..|ms|] == ms;
  }

  /**
   * Each item of `orderedFilters` comes from the match at the same index:
   * it is custom exactly when the matched name is registered, in which case
   * it carries that name and the parsed parameters; otherwise it is the
   * name, `(`, the raw parameter text and `)`, without the white space that
   * may stand before `(`.
   */
  lemma {:induction false} ClassifyAllAt(registered: set<string>, s: string, ms: seq<Match>, k: nat)
    requires forall i :: 0 <= i < |ms| ==> InBounds(s, ms[i])
    requires k < |ms|
    ensures var f := ClassifyAll(registered, s, ms)[k];
            var name := MatchName(s, ms[k]);
            var params := MatchParams(s, ms[k]);
            && (f.Custom? <==> name in registered)
            && (f.Custom? ==> f.filter == CustomFilter(name, ParseParams(params)))
            && (f.Css? ==> f.text == name + "(" + params + ")")
  {
    if k < |ms| - 1 {
      ClassifyAllAt(registered, s, ms[..|ms| - 1], k);
    }
  }

  /** The blank check and the piece split: text made of pieces with something in each gives one parameter per piece. */
  lemma ParseParamsOfPieces(pieces: seq<string>)
    requires pieces != []
    requires forall k :: 0 <= k < |pieces| ==> ',' !in pieces[k] && Trim(pieces[k]) != []
    ensures ParseParams(Join(pieces, ",")) == seq(|pieces|, k requires 0 <= k < |pieces| => ClassifyParam(Trim(pieces[k])))
  {
    SplitJoin(pieces, ',');
    JoinNotBlank(pieces, ",");
    ClassifyPiecesAll(pieces);
  }

  lemma {:induction false} ClassifyPiecesAll(pieces: seq<string>)
    requires forall k :: 0 <= k < |pieces| ==> Trim(pieces[k]) != []
    ensures ClassifyPieces(pieces) == seq(|pieces|, k requires 0 <= k < |pieces| => ClassifyParam(Trim(pieces[k])))
  {
    if pieces != [] {
      ClassifyPiecesAll(pieces[1..]);
    }
  }

  lemma JoinNotBlank(pieces: seq<string>, sep: string)
    requires pieces != [] && Trim(pieces[0]) != []
    ensures Trim(Join(pieces, sep)) != []
  {
    var j := Join(pieces, sep);
    assert j[..|pieces[0]|] == pieces[0];
    var k :| 0 <= k < |pieces[0]| && !IsSpace(pieces[0][k]);
    assert j[k] == pieces[0][k];
  }
}
