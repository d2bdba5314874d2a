/**
 Exactly when the evaluator gives the meaning of a printed condition. It fails only on an equality on a
 name spelled OR right after an AND, where the text is split inside the conjunction, and there exactly
 when nothing before that leaf has settled the answer.
 */
module ConditionExact {
  import opened Wrappers
  import opened Strings
  import opened ConditionEval

  predicate AreLeaves(ls: Conjunction) { ls != [] && forall i | 0 <= i < |ls| :: IsLeaf(ls[i]) }

  predicate IsCondition(cs: seq<Conjunction>) { cs != [] && forall k | 0 <= k < |cs| :: AreLeaves(cs[k]) }

  /** Leaf `i` of conjunction `k` is the first that reads as the operator. */
  predicate FirstAmbiguous(cs: seq<Conjunction>, k: nat, i: nat) {
    && k < |cs| && 1 <= i < |cs[k]| && Ambiguous(cs[k][i])
    && (forall j | 0 <= j < k :: IsConjunction(cs[j]))
    && IsConjunction(cs[k][..i])
  }

  lemma {:induction false} FirstExists(cs: seq<Conjunction>) returns (k: nat, i: nat)
    requires IsCondition(cs) && exists j :: 0 <= j < |cs| && !IsConjunction(cs[j])
    ensures FirstAmbiguous(cs, k, i)
  {
    k := 0;
    while IsConjunction(cs[k])
      invariant k < |cs| && forall j | 0 <= j < k :: IsConjunction(cs[j])
      decreases |cs| - k
    {
      k := k + 1;
    }
    i := 1;
    while !Ambiguous(cs[k][i])
      invariant 1 <= i < |cs[k]| && forall j | 1 <= j < i :: !Ambiguous(cs[k][j])
      invariant !IsConjunction(cs[k])
      decreases |cs[k]| - i
    {
      i := i + 1;
    }
  }

  // --- A text that starts with an equals sign --------------------------------------------

  lemma {:induction false} StripKeepsHead(s: string)
    requires s != "" && !IsSpace(s[0])
    ensures Strip(s) != "" && Strip(s)[0] == s[0]
    decreases |s|
  {
    if IsSpace(s[|s| - 1]) { StripKeepsHead(s[..|s| - 1]); }
  }

  lemma {:induction false} TrimmedAppend(a: seq<string>, b: seq<string>)
    ensures Trimmed(a + b) == Trimmed(a) + Trimmed(b)
    decreases |b|
  {
    if b == [] {
      assert a + b == a;
    } else {
      var rest := b[..|b| - 1];
      assert (a + b)[..|a + b| - 1] == a + rest;
      TrimmedAppend(a, rest);
    }
  }

  lemma TrimmedHead(parts: seq<string>)
    requires parts != [] && parts[0] != "" && !IsSpace(parts[0][0])
    ensures Trimmed(parts) != [] && Trimmed(parts)[0] != "" && Trimmed(parts)[0][0] == parts[0][0]
  {
    assert parts == [parts[0]] + parts[1..];
    TrimmedAppend([parts[0]], parts[1..]);
    StripKeepsHead(parts[0]);
    assert Trimmed([parts[0]][..0]) == [];
  }

  lemma {:induction false} FirstPiece(s: string, sep: string, i: nat, last: nat, depth: int)
    requires last < i <= |s| && sep != ""
    ensures var p := Pieces(s, sep, i, last, depth)[0]; p != "" && p[0] == s[last]
    decreases |s| - i
  {
    if i < |s| && !(s[i] != '(' && s[i] != ')' && depth == 0 && MatchAt(s, sep, i)) {
      FirstPiece(s, sep, i + 1, last, if s[i] == '(' then depth + 1 else if s[i] == ')' then depth - 1 else depth);
    }
  }

  lemma SignFirst(s: string, sep: string, i: nat)
    requires IsSeparator(sep) && i < |s| && s[i] == '='
    ensures var parts := Trimmed(Pieces(s, sep, i, i, 0)); parts != [] && parts[0] != "" && parts[0][0] == '='
  {
    MatchStarts(s, sep, i);
    FirstPiece(s, sep, i + 1, i, 0);
    TrimmedHead(Pieces(s, sep, i, i, 0));
  }

  lemma NoTokenBefore(expr: string)
    requires expr != "" && expr[0] == '='
    ensures ParseLeaf(expr) == None
  {
    assert expr[..0] == "";
    if |expr| > |NOT_EXISTS| { assert expr[..|NOT_EXISTS|][0] == '='; }
    if |expr| > |EXISTS| { assert expr[..|EXISTS|][0] == '='; }
  }

  lemma {:induction false} LeadingSign(text: string, item: Option<Item>, values: Item, names: map<string, string>)
    requires text != "" && text[0] == '='
    ensures Eval(text, item, values, names) == Err(UnsupportedLeaf)
    decreases |text|
  {
    StripKeepsHead(text);
    StripShortens(text);
    var expr := Strip(text);
    var ors, ands := SplitTopLevel(expr, OR_TEXT), SplitTopLevel(expr, AND_TEXT);
    SignFirst(expr, OR_TEXT, 0);
    SignFirst(expr, AND_TEXT, 0);
    NoTokenBefore(expr);
    if |ors| > 1 {
      PartsShorter(expr, OR_TEXT);
      LeadingSign(ors[0], item, values, names);
    } else if |ands| > 1 {
      PartsShorter(expr, AND_TEXT);
      LeadingSign(ands[0], item, values, names);
    }
  }

  // --- A text that ends with an AND --------------------------------------------------------

  const DANGLING := " AND"

  lemma DanglingPasses(s: string, sep: string, i: nat)
    requires At(s, i, DANGLING) && (sep == OR_TEXT || (sep == AND_TEXT && i + 4 == |s|))
    ensures Passes(s, sep, i, i + 4, 0)
  {
    forall k | 0 <= k < 4 ensures s[i + k] == DANGLING[k] { AtChar(s, i, DANGLING, k); }
    forall k | i <= k < i + 4 ensures s[k] != '(' && s[k] != ')' && !MatchAt(s, sep, k) {
      assert s[k] == DANGLING[k - i];
      MatchStarts(s, sep, k);
    }
    PlainPasses(s, sep, i, i + 4);
  }

  lemma ThenDangling(s: string, j: nat, text: string)
    requires PassesAnywhere(s, OR_TEXT, text) && At(s, j, text + DANGLING)
    ensures Passes(s, OR_TEXT, j, j + |text + DANGLING|, 0)
  {
    AtPrefix(s, j, text, DANGLING);
    DanglingPasses(s, OR_TEXT, j + |text|);
    PassesJoin(s, OR_TEXT, j, j + |text|, j + |text| + 4, 0);
  }

  lemma CutAnywhere(s: string, ls: Conjunction)
    requires IsConjunction(ls)
    ensures PassesAnywhere(s, OR_TEXT, PrintAnd(ls) + DANGLING)
  {
    var text := PrintAnd(ls);
    ConjunctionAnywhere(s, ls);
    DanglingAnywhere(s, text);
  }

  lemma DanglingAnywhere(s: string, text: string)
    requires PassesAnywhere(s, OR_TEXT, text)
    ensures PassesAnywhere(s, OR_TEXT, text + DANGLING)
  {
    forall j: nat | At(s, j, text + DANGLING) ensures Passes(s, OR_TEXT, j, j + |text + DANGLING|, 0) {
      ThenDangling(s, j, text);
    }
  }

  lemma WholeAt(s: string)
    ensures At(s, 0, s)
  {
  }

  lemma NoOr(ls: Conjunction)
    requires IsConjunction(ls)
    ensures var s := PrintAnd(ls) + DANGLING; Tight(s) && SplitTopLevel(s, OR_TEXT) == [s]
  {
    var s := PrintAnd(ls) + DANGLING;
    AndTight(ls);
    CutAnywhere(s, ls);
    WholeAt(s);
    PiecesPass(s, OR_TEXT, 0, |s|, 0, 0);
    assert s[0..] == s;
    TrimmedTight([s]);
  }

  lemma AndStep(ls: Conjunction)
    requires |ls| > 1
    ensures PrintAnd(ls) == PrintLeaf(ls[0]) + (AND_TEXT + PrintAnd(ls[1..]))
  {
    assert LeafTexts(ls)[1..] == LeafTexts(ls[1..]);
  }

  lemma Regroup(a: string, b: string, c: string)
    ensures (a + b) + c == a + (b + c)
  {
  }

  lemma LastPiece(s: string, j: nat, l: Leaf)
    requires IsLeaf(l) && At(s, j, PrintLeaf(l) + DANGLING) && j + |PrintLeaf(l) + DANGLING| == |s|
    ensures Pieces(s, AND_TEXT, j, j, 0) == [PrintLeaf(l) + DANGLING]
  {
    var m := j + |PrintLeaf(l)|;
    AtPrefix(s, j, PrintLeaf(l), DANGLING);
    LeafPasses(s, AND_TEXT, j, l);
    DanglingPasses(s, AND_TEXT, m);
    PassesJoin(s, AND_TEXT, j, m, |s|, 0);
    PiecesPass(s, AND_TEXT, j, |s|, j, 0);
    assert s[j..] == s[j..|s|];
  }

  lemma FirstOfMany(s: string, j: nat, ls: Conjunction) returns (m: nat)
    requires IsConjunction(ls) && |ls| > 1 && At(s, j, PrintAnd(ls) + DANGLING) && j + |PrintAnd(ls) + DANGLING| == |s|
    ensures At(s, m, PrintAnd(ls[1..]) + DANGLING) && m + |PrintAnd(ls[1..]) + DANGLING| == |s|
    ensures Pieces(s, AND_TEXT, j, j, 0) == [PrintLeaf(ls[0])] + Pieces(s, AND_TEXT, m, m, 0)
  {
    var first, rest := PrintLeaf(ls[0]), PrintAnd(ls[1..]);
    AndStep(ls);
    Regroup(first, AND_TEXT + rest, DANGLING);
    Regroup(AND_TEXT, rest, DANGLING);
    LeafAnywhere(s, AND_TEXT, ls[0]);
    CutHere(s, AND_TEXT, j, first, rest + DANGLING);
    m := j + |first| + |AND_TEXT|;
  }

  /** The pieces of a conjunction with an AND left over. */
  function DanglingTexts(ls: Conjunction): (r: seq<string>)
    requires ls != []
    ensures |r| == |ls|
  {
    LeafTexts(ls[..|ls| - 1]) + [PrintLeaf(ls[|ls| - 1]) + DANGLING]
  }

  lemma DanglingTextsStep(ls: Conjunction)
    requires |ls| > 1
    ensures DanglingTexts(ls) == [PrintLeaf(ls[0])] + DanglingTexts(ls[1..])
  {
    var n, rest := |ls| - 1, ls[1..];
    assert LeafTexts(ls[..n]) == [PrintLeaf(ls[0])] + LeafTexts(rest[..n - 1]);
    assert rest[n - 1] == ls[n];
  }

  lemma DanglingTextsOne(l: Leaf)
    ensures DanglingTexts([l]) == [PrintLeaf(l) + DANGLING] && PrintAnd([l]) == PrintLeaf(l)
  {
  }

  lemma {:induction false} DanglingPieces(s: string, j: nat, ls: Conjunction)
    requires IsConjunction(ls) && At(s, j, PrintAnd(ls) + DANGLING) && j + |PrintAnd(ls) + DANGLING| == |s|
    ensures Pieces(s, AND_TEXT, j, j, 0) == DanglingTexts(ls)
    decreases |ls|
  {
    if |ls| == 1 {
      assert ls == [ls[0]];
      DanglingTextsOne(ls[0]);
      LastPiece(s, j, ls[0]);
    } else {
      var m := FirstOfMany(s, j, ls);
      DanglingPieces(s, m, ls[1..]);
      DanglingTextsStep(ls);
    }
  }

  lemma DanglingTight(ls: Conjunction)
    requires IsConjunction(ls)
    ensures forall k | 0 <= k < |ls| :: Tight(DanglingTexts(ls)[k])
  {
    forall k | 0 <= k < |ls| ensures Tight(DanglingTexts(ls)[k]) {
      LeafTight(ls[k]);
      if k == |ls| - 1 { TightThenDangling(PrintLeaf(ls[k])); }
    }
  }

  lemma TightThenDangling(text: string)
    requires Tight(text)
    ensures Tight(text + DANGLING) && (text + DANGLING)[|text + DANGLING| - 1] == 'D'
  {
    assert (text + DANGLING)[|text + DANGLING| - 1] == 'D';
  }

  lemma DanglingSplit(ls: Conjunction)
    requires IsConjunction(ls)
    ensures SplitTopLevel(PrintAnd(ls) + DANGLING, AND_TEXT) == DanglingTexts(ls)
  {
    var s := PrintAnd(ls) + DANGLING;
    WholeAt(s);
    DanglingPieces(s, 0, ls);
    DanglingTight(ls);
    TrimmedTight(DanglingTexts(ls));
  }

  predicate SignFree(s: string) { forall k | 0 <= k < |s| :: s[k] != '=' }

  lemma SignFreeWords()
    ensures SignFree(NOT_EXISTS) && SignFree(EXISTS)
  {
  }

  lemma NoSignIn(prefix: string, t: string)
    requires SignFree(prefix) && IsToken(t)
    ensures var expr := prefix + t + ")" + DANGLING; FindEquals(expr) == |expr|
  {
    assert SignFree(t) && SignFree(prefix + t) && SignFree(")" + DANGLING);
    assert prefix + t + ")" + DANGLING == (prefix + t) + (")" + DANGLING);
  }

  lemma DanglingLeaf(l: Leaf)
    requires IsLeaf(l)
    ensures ParseLeaf(PrintLeaf(l) + DANGLING) == None
  {
    var expr := PrintLeaf(l) + DANGLING;
    NoArgument(expr);
    SignFreeWords();
    match l
    case NotExists(t) => NoSignIn(NOT_EXISTS, t);
    case Exists(t) => NoSignIn(EXISTS, t);
    case Equals(t, p) => DanglingEquals(t, p);
  }

  lemma DanglingEquals(t: string, p: string)
    requires IsToken(t) && IsPlaceholder(p)
    ensures ParseLeaf(PrintLeaf(Equals(t, p)) + DANGLING) == None
  {
    var value := p + DANGLING;
    Regroup(t, " = " + p, DANGLING);
    Regroup(" = ", p, DANGLING);
    TightThenDangling(p);
    assert value[|p|] == ' ';
    NotAValue(t, value);
  }

  lemma NotAValue(t: string, value: string)
    requires IsToken(t) && Tight(value) && !IsPlaceholder(value) && value[|value| - 1] != ')'
    ensures ParseLeaf(t + (" = " + value)) == None
  {
    var expr := t + (" = " + value);
    assert expr[|expr| - 1] == value[|value| - 1];
    NoArgument(expr);
    NoEquality(t, value);
  }

  lemma NoEquality(t: string, value: string)
    requires IsToken(t) && Tight(value) && !IsPlaceholder(value)
    ensures ParseEquals(t + (" = " + value)) == None
  {
    SignAt(t, value);
    StripSpaces(t, value);
  }

  function LeafAnswers(ls: Conjunction, item: Option<Item>, values: Item, names: map<string, string>): seq<Answer> {
    seq(|ls|, i requires 0 <= i < |ls| => EvalLeaf(ls[i], item, values, names))
  }

  lemma DanglingOne(l: Leaf, item: Option<Item>, values: Item, names: map<string, string>)
    requires IsLeaf(l)
    ensures Eval(PrintLeaf(l) + DANGLING, item, values, names) == Err(UnsupportedLeaf)
  {
    assert PrintAnd([l]) == PrintLeaf(l);
    NoOr([l]);
    DanglingSplit([l]);
    DanglingLeaf(l);
  }

  function DanglingAnswers(ls: Conjunction, item: Option<Item>, values: Item, names: map<string, string>): (r: seq<Answer>)
    requires ls != []
    ensures |r| == |ls|
  {
    LeafAnswers(ls[..|ls| - 1], item, values, names) + [Err(UnsupportedLeaf)]
  }

  /** A conjunction with an AND left over is an error at its last leaf. */
  lemma DanglingAnd(ls: Conjunction, item: Option<Item>, values: Item, names: map<string, string>)
    requires IsConjunction(ls)
    ensures Eval(PrintAnd(ls) + DANGLING, item, values, names) == Combine(DanglingAnswers(ls, item, values, names), false)
  {
    var s := PrintAnd(ls) + DANGLING;
    if |ls| == 1 {
      assert ls == [ls[0]];
      DanglingTextsOne(ls[0]);
      DanglingOne(ls[0], item, values, names);
      OneAnswer(DanglingAnswers(ls, item, values, names), false);
    } else {
      NoOr(ls);
      DanglingSplit(ls);
      DanglingEvals(ls, item, values, names);
      PartsShorter(s, AND_TEXT);
      SearchCombines(DanglingTexts(ls), DanglingAnswers(ls, item, values, names), |s|, false, item, values, names);
    }
  }

  lemma DanglingEvals(ls: Conjunction, item: Option<Item>, values: Item, names: map<string, string>)
    requires IsConjunction(ls)
    ensures forall k | 0 <= k < |ls| :: Eval(DanglingTexts(ls)[k], item, values, names) == DanglingAnswers(ls, item, values, names)[k]
  {
    forall k | 0 <= k < |ls|
      ensures Eval(DanglingTexts(ls)[k], item, values, names) == DanglingAnswers(ls, item, values, names)[k]
    {
      DanglingAt(ls, k, item, values, names);
    }
  }

  lemma DanglingAt(ls: Conjunction, k: nat, item: Option<Item>, values: Item, names: map<string, string>)
    requires k < |ls| && IsLeaf(ls[k])
    ensures Eval(DanglingTexts(ls)[k], item, values, names) == DanglingAnswers(ls, item, values, names)[k]
  {
    if k < |ls| - 1 {
      assert DanglingTexts(ls)[k] == PrintLeaf(ls[k]);
      EvalPrintedLeaf(ls[k], item, values, names);
    } else {
      assert DanglingTexts(ls)[k] == PrintLeaf(ls[k]) + DANGLING;
      DanglingOne(ls[k], item, values, names);
    }
  }

  // --- The first wrong cut -----------------------------------------------------------------

  lemma {:induction false} AndSplit(ls: Conjunction, i: nat)
    requires 1 <= i < |ls|
    ensures PrintAnd(ls) == PrintAnd(ls[..i]) + (AND_TEXT + PrintAnd(ls[i..]))
    decreases i
  {
    AndStep(ls);
    if i > 1 {
      AndStep(ls[..i]);
      AndSplit(ls[1..], i - 1);
      assert ls[..i][1..] == ls[1..][..i - 1] && ls[i..] == ls[1..][i - 1..];
      Shift(PrintLeaf(ls[0]), PrintAnd(ls[1..][..i - 1]), PrintAnd(ls[i..]));
    } else {
      DanglingTextsOne(ls[0]);
      assert ls[..1] == [ls[0]];
    }
  }

  lemma Shift(first: string, middle: string, last: string)
    ensures first + (AND_TEXT + (middle + (AND_TEXT + last))) == (first + (AND_TEXT + middle)) + (AND_TEXT + last)
  {
    Regroup(first, AND_TEXT + middle, AND_TEXT + last);
    Regroup(AND_TEXT, middle, AND_TEXT + last);
  }

  /** The ambiguous leaf reads as an OR and a text that starts with an equals sign. */
  lemma ReadsAsOr(ls: Conjunction, i: nat) returns (rest: string)
    requires 1 <= i < |ls| && Ambiguous(ls[i])
    ensures PrintAnd(ls) == (PrintAnd(ls[..i]) + DANGLING) + (OR_TEXT + rest) && rest != "" && rest[0] == '='
  {
    AndSplit(ls, i);
    var p := ls[i].placeholder;
    var tail := JoinStarts(LeafTexts(ls[i..]), AND_TEXT);
    rest := OrText(p, tail);
    Regroup(PrintAnd(ls[..i]), DANGLING, OR_TEXT + rest);
  }

  lemma OrText(p: string, tail: string) returns (rest: string)
    ensures AND_TEXT + (("OR" + (" = " + p)) + tail) == DANGLING + (OR_TEXT + rest) && rest != "" && rest[0] == '='
  {
    rest := "= " + (p + tail);
    Regroup("OR", " = " + p, tail);
    Regroup(" = ", p, tail);
    assert AND_TEXT + "OR" + " = " == DANGLING + OR_TEXT + "= ";
  }

  lemma OrStep(cs: seq<Conjunction>)
    requires |cs| > 1
    ensures PrintOr(cs) == PrintAnd(cs[0]) + (OR_TEXT + PrintOr(cs[1..]))
  {
    assert AndTexts(cs)[1..] == AndTexts(cs[1..]);
  }

  lemma CutAtLeaf(s: string, j: nat, cs: seq<Conjunction>, i: nat) returns (m: nat)
    requires FirstAmbiguous(cs, 0, i) && At(s, j, PrintOr(cs))
    ensures m < |s| && s[m] == '='
    ensures Pieces(s, OR_TEXT, j, j, 0) == [PrintAnd(cs[0][..i]) + DANGLING] + Pieces(s, OR_TEXT, m, m, 0)
  {
    var tail := JoinStarts(AndTexts(cs), OR_TEXT);
    var rest := ReadsAsOr(cs[0], i);
    var first := PrintAnd(cs[0][..i]) + DANGLING;
    Regroup(first, OR_TEXT + rest, tail);
    Regroup(OR_TEXT, rest, tail);
    m := CutAndStart(s, j, cs[0][..i], rest + tail);
  }

  lemma CutAndStart(s: string, j: nat, ls: Conjunction, rest: string) returns (m: nat)
    requires IsConjunction(ls) && At(s, j, (PrintAnd(ls) + DANGLING) + (OR_TEXT + rest)) && rest != "" && rest[0] == '='
    ensures m < |s| && s[m] == '='
    ensures Pieces(s, OR_TEXT, j, j, 0) == [PrintAnd(ls) + DANGLING] + Pieces(s, OR_TEXT, m, m, 0)
  {
    var first := PrintAnd(ls) + DANGLING;
    CutAnywhere(s, ls);
    CutHere(s, OR_TEXT, j, first, rest);
    m := j + |first| + |OR_TEXT|;
    AtChar(s, m, rest, 0);
  }

  lemma CutText(s: string, j: nat, first: string, rest: string, text: string) returns (m: nat)
    requires At(s, j, text) && text == first + (OR_TEXT + rest) && PassesAnywhere(s, OR_TEXT, first)
    ensures At(s, m, rest) && Pieces(s, OR_TEXT, j, j, 0) == [first] + Pieces(s, OR_TEXT, m, m, 0)
  {
    CutHere(s, OR_TEXT, j, first, rest);
    m := j + |first| + |OR_TEXT|;
  }

  /** The parts, each with an OR after it, and then the rest. */
  function Lead(parts: seq<string>, rest: string): string {
    if parts == [] then rest else parts[0] + (OR_TEXT + Lead(parts[1..], rest))
  }

  lemma {:induction false} PiecesThrough(s: string, j: nat, parts: seq<string>, rest: string) returns (m: nat)
    requires At(s, j, Lead(parts, rest)) && forall k | 0 <= k < |parts| :: PassesAnywhere(s, OR_TEXT, parts[k])
    ensures At(s, m, rest) && Pieces(s, OR_TEXT, j, j, 0) == parts + Pieces(s, OR_TEXT, m, m, 0)
    decreases |parts|
  {
    if parts == [] {
      m := j;
    } else {
      var n := CutText(s, j, parts[0], Lead(parts[1..], rest), Lead(parts, rest));
      m := PiecesThrough(s, n, parts[1..], rest);
      FirstAndRest(parts, Pieces(s, OR_TEXT, m, m, 0));
    }
  }

  lemma FirstAndRest(a: seq<string>, b: seq<string>)
    requires a != []
    ensures [a[0]] + (a[1..] + b) == a + b
  {
  }

  lemma {:induction false} OrLead(cs: seq<Conjunction>, k: nat)
    requires k < |cs|
    ensures PrintOr(cs) == Lead(AndTexts(cs[..k]), PrintOr(cs[k..]))
    decreases k
  {
    if k == 0 {
      assert cs[0..] == cs;
    } else {
      OrStep(cs);
      OrLead(cs[1..], k - 1);
      assert cs[1..][k - 1..] == cs[k..];
      assert AndTexts(cs[..k])[1..] == AndTexts(cs[1..][..k - 1]);
    }
  }

  lemma PiecesUpTo(s: string, cs: seq<Conjunction>, k: nat, i: nat) returns (m: nat)
    requires FirstAmbiguous(cs, k, i) && s == PrintOr(cs)
    ensures m < |s| && s[m] == '='
    ensures Pieces(s, OR_TEXT, 0, 0, 0) == AndTexts(cs[..k]) + ([PrintAnd(cs[k][..i]) + DANGLING] + Pieces(s, OR_TEXT, m, m, 0))
  {
    var parts := AndTexts(cs[..k]);
    OrLead(cs, k);
    WholeAt(s);
    forall j | 0 <= j < k ensures PassesAnywhere(s, OR_TEXT, parts[j]) { ConjunctionAnywhere(s, cs[j]); }
    var n := PiecesThrough(s, 0, parts, PrintOr(cs[k..]));
    m := CutAtLeaf(s, n, cs[k..], i);
  }

  /** What the text is split into. */
  lemma SplitUpTo(cs: seq<Conjunction>, k: nat, i: nat) returns (rest: seq<string>)
    requires FirstAmbiguous(cs, k, i)
    ensures SplitTopLevel(PrintOr(cs), OR_TEXT) == AndTexts(cs[..k]) + [PrintAnd(cs[k][..i]) + DANGLING] + rest
    ensures rest != [] && rest[0] != "" && rest[0][0] == '='
  {
    var s, a, d := PrintOr(cs), AndTexts(cs[..k]), PrintAnd(cs[k][..i]) + DANGLING;
    var m := PiecesUpTo(s, cs, k, i);
    rest := Trimmed(Pieces(s, OR_TEXT, m, m, 0));
    SignFirst(s, OR_TEXT, m);
    TextsTight(cs[..k]);
    NoOr(cs[k][..i]);
    MoveOne(a, d, Pieces(s, OR_TEXT, m, m, 0));
    TrimmedUpTo(a + [d], Pieces(s, OR_TEXT, m, m, 0));
  }

  lemma MoveOne(a: seq<string>, d: string, b: seq<string>)
    ensures a + ([d] + b) == (a + [d]) + b
  {
  }

  lemma TextsTight(cs: seq<Conjunction>)
    requires forall j | 0 <= j < |cs| :: IsConjunction(cs[j])
    ensures forall j | 0 <= j < |cs| :: Tight(AndTexts(cs)[j])
  {
    forall j | 0 <= j < |cs| ensures Tight(AndTexts(cs)[j]) { AndTight(cs[j]); }
  }

  lemma TrimmedUpTo(a: seq<string>, b: seq<string>)
    requires forall j | 0 <= j < |a| :: Tight(a[j])
    ensures Trimmed(a + b) == a + Trimmed(b)
  {
    TrimmedTight(a);
    TrimmedAppend(a, b);
  }

  // --- What the evaluator makes of it ------------------------------------------------------

  lemma {:induction false} CombineAppend(a: seq<Answer>, b: seq<Answer>, stop: bool)
    ensures Combine(a + b, stop) == if Combine(a, stop) == Ok(!stop) then Combine(b, stop) else Combine(a, stop)
    decreases |a|
  {
    if a == [] {
      assert a + b == b;
    } else {
      assert (a + b)[1..] == a[1..] + b;
      CombineAppend(a[1..], b, stop);
    }
  }

  function AndAnswers(cs: seq<Conjunction>, item: Option<Item>, values: Item, names: map<string, string>): seq<Answer> {
    seq(|cs|, i requires 0 <= i < |cs| => AndMeaning(cs[i], item, values, names))
  }

  lemma ConditionTight(cs: seq<Conjunction>)
    requires IsCondition(cs)
    ensures Tight(PrintOr(cs))
  {
    forall k | 0 <= k < |cs| ensures Tight(AndTexts(cs)[k]) {
      forall j | 0 <= j < |cs[k]| ensures Tight(LeafTexts(cs[k])[j]) { LeafTight(cs[k][j]); }
      JoinedTight(LeafTexts(cs[k]), AND_TEXT);
    }
    JoinedTight(AndTexts(cs), OR_TEXT);
  }

  /** The outcome on an ambiguous condition, when the leaves before the last one before the cut combine to `before`. */
  function Outcome(settled: Answer, before: Answer): Answer {
    if settled != Ok(false) then settled else if before.Err? then before else Err(UnsupportedLeaf)
  }

  /** The outcome of an evaluation is that of its parts. */
  lemma EvalParts(s: string, item: Option<Item>, values: Item, names: map<string, string>) returns (answers: seq<Answer>)
    requires Tight(s) && |SplitTopLevel(s, OR_TEXT)| > 1
    ensures |answers| == |SplitTopLevel(s, OR_TEXT)|
    ensures forall j | 0 <= j < |answers| :: answers[j] == Eval(SplitTopLevel(s, OR_TEXT)[j], item, values, names)
    ensures Eval(s, item, values, names) == Combine(answers, true)
  {
    var parts := SplitTopLevel(s, OR_TEXT);
    answers := seq(|parts|, j requires 0 <= j < |parts| => Eval(parts[j], item, values, names));
    PartsShorter(s, OR_TEXT);
    SearchCombines(parts, answers, |s|, true, item, values, names);
  }

  /** A dangling conjunction and then an error. */
  lemma CutOutcome(ls: Conjunction, cut: seq<Answer>, item: Option<Item>, values: Item, names: map<string, string>)
    requires ls != [] && |cut| >= 2 && cut[0] == Combine(DanglingAnswers(ls, item, values, names), false) && cut[1] == Err(UnsupportedLeaf)
    ensures Combine(cut, true) == Outcome(Ok(false), AndMeaning(ls[..|ls| - 1], item, values, names))
  {
    CombineAppend(LeafAnswers(ls[..|ls| - 1], item, values, names), [Err(UnsupportedLeaf)], false);
    assert AndMeaning(ls[..|ls| - 1], item, values, names) == Combine(LeafAnswers(ls[..|ls| - 1], item, values, names), false);
    assert Combine(cut[1..], true) == cut[1];
  }

  /** What the parts evaluate to: the conjunctions before, then the dangling one, then an error. */
  lemma PartsEval(cs: seq<Conjunction>, k: nat, i: nat, rest: seq<string>, answers: seq<Answer>, item: Option<Item>, values: Item, names: map<string, string>)
    requires FirstAmbiguous(cs, k, i) && rest != [] && rest[0] != "" && rest[0][0] == '='
    requires var parts := AndTexts(cs[..k]) + [PrintAnd(cs[k][..i]) + DANGLING] + rest;
      |answers| == |parts| && forall j | 0 <= j < |parts| :: answers[j] == Eval(parts[j], item, values, names)
    ensures answers[..k] == AndAnswers(cs[..k], item, values, names)
    ensures answers[k] == Combine(DanglingAnswers(cs[k][..i], item, values, names), false) && answers[k + 1] == Err(UnsupportedLeaf)
  {
    var parts := AndTexts(cs[..k]) + [PrintAnd(cs[k][..i]) + DANGLING] + rest;
    forall j | 0 <= j < k ensures answers[j] == AndAnswers(cs[..k], item, values, names)[j] {
      assert parts[j] == PrintAnd(cs[j]);
      EvalPrintedAnd(cs[j], item, values, names);
    }
    assert parts[k] == PrintAnd(cs[k][..i]) + DANGLING && parts[k + 1] == rest[0];
    DanglingAnd(cs[k][..i], item, values, names);
    LeadingSign(rest[0], item, values, names);
  }

  /** The whole outcome: settled by the conjunctions before, or by an error before the cut, or unsupported. */
  lemma EvalAmbiguous(cs: seq<Conjunction>, k: nat, i: nat, item: Option<Item>, values: Item, names: map<string, string>)
    requires IsCondition(cs) && FirstAmbiguous(cs, k, i)
    ensures Eval(PrintOr(cs), item, values, names)
         == Outcome(OrMeaning(cs[..k], item, values, names), AndMeaning(cs[k][..i - 1], item, values, names))
  {
    var rest := SplitUpTo(cs, k, i);
    ConditionTight(cs);
    var answers := EvalParts(PrintOr(cs), item, values, names);
    PartsEval(cs, k, i, rest, answers, item, values, names);
    CutAnswers(cs, k, i, answers, item, values, names);
  }

  lemma CutAnswers(cs: seq<Conjunction>, k: nat, i: nat, answers: seq<Answer>, item: Option<Item>, values: Item, names: map<string, string>)
    requires k < |cs| && 1 <= i <= |cs[k]| && |answers| > k + 1
    requires answers[..k] == AndAnswers(cs[..k], item, values, names)
    requires answers[k] == Combine(DanglingAnswers(cs[k][..i], item, values, names), false) && answers[k + 1] == Err(UnsupportedLeaf)
    ensures Combine(answers, true) == Outcome(OrMeaning(cs[..k], item, values, names), AndMeaning(cs[k][..i - 1], item, values, names))
  {
    var before, cut := answers[..k], answers[k..];
    assert cs[k][..i][..i - 1] == cs[k][..i - 1];
    CutOutcome(cs[k][..i], cut, item, values, names);
    CombineAppend(before, cut, true);
    assert answers == before + cut;
    MeaningOfAnswers(cs[..k], item, values, names);
  }

  lemma MeaningOfAnswers(cs: seq<Conjunction>, item: Option<Item>, values: Item, names: map<string, string>)
    ensures OrMeaning(cs, item, values, names) == Combine(AndAnswers(cs, item, values, names), true)
  {
  }

  lemma {:induction false} CombineSupported(answers: seq<Answer>, stop: bool)
    requires forall i | 0 <= i < |answers| :: answers[i] != Err(UnsupportedLeaf)
    ensures Combine(answers, stop) != Err(UnsupportedLeaf)
  {
    if answers != [] { CombineSupported(answers[1..], stop); }
  }

  /** A leaf printed from the grammar is never unsupported. */
  lemma MeaningSupported(cs: seq<Conjunction>, item: Option<Item>, values: Item, names: map<string, string>)
    ensures OrMeaning(cs, item, values, names) != Err(UnsupportedLeaf)
  {
    forall k | 0 <= k < |cs| ensures AndAnswers(cs, item, values, names)[k] != Err(UnsupportedLeaf) {
      CombineSupported(LeafAnswers(cs[k], item, values, names), false);
    }
    CombineSupported(AndAnswers(cs, item, values, names), true);
  }

  lemma MeaningUpTo(cs: seq<Conjunction>, k: nat, i: nat, item: Option<Item>, values: Item, names: map<string, string>)
    requires k < |cs| && 1 <= i <= |cs[k]|
    ensures var settled, before := OrMeaning(cs[..k], item, values, names), AndMeaning(cs[k][..i - 1], item, values, names);
      settled != Ok(false) || before.Err? ==> OrMeaning(cs, item, values, names) == Outcome(settled, before)
  {
    var ls := cs[k];
    CombineAppend(AndAnswers(cs[..k], item, values, names), AndAnswers(cs[k..], item, values, names), true);
    assert AndAnswers(cs[..k], item, values, names) + AndAnswers(cs[k..], item, values, names) == AndAnswers(cs, item, values, names);
    CombineAppend(LeafAnswers(ls[..i - 1], item, values, names), LeafAnswers(ls[i - 1..], item, values, names), false);
    assert LeafAnswers(ls[..i - 1], item, values, names) + LeafAnswers(ls[i - 1..], item, values, names) == LeafAnswers(ls, item, values, names);
  }

  /**
   A condition with an ambiguous leaf is evaluated to its meaning exactly when the conjunctions before
   it settle the answer or a leaf before the cut is in error; otherwise it is unsupported.
   */
  lemma EvalExactIff(cs: seq<Conjunction>, k: nat, i: nat, item: Option<Item>, values: Item, names: map<string, string>)
    requires IsCondition(cs) && FirstAmbiguous(cs, k, i)
    ensures Eval(PrintOr(cs), item, values, names) == OrMeaning(cs, item, values, names) <==>
              OrMeaning(cs[..k], item, values, names) != Ok(false) || AndMeaning(cs[k][..i - 1], item, values, names).Err?
    ensures Eval(PrintOr(cs), item, values, names) != OrMeaning(cs, item, values, names) ==>
              Eval(PrintOr(cs), item, values, names) == Err(UnsupportedLeaf)
  {
    EvalAmbiguous(cs, k, i, item, values, names);
    MeaningUpTo(cs, k, i, item, values, names);
    MeaningSupported(cs, item, values, names);
  }

  ghost predicate SomeHolds(cs: seq<Conjunction>, item: Option<Item>, values: Item, names: map<string, string>) {
    exists k :: 0 <= k < |cs| && AllHold(cs[k], item, values, names)
  }

  lemma OrHolds(cs: seq<Conjunction>, item: Option<Item>, values: Item, names: map<string, string>)
    requires forall k | 0 <= k < |cs| :: AllBound(cs[k], values, names)
    ensures OrMeaning(cs, item, values, names) == Ok(SomeHolds(cs, item, values, names))
  {
    var answers := AndAnswers(cs, item, values, names);
    forall k | 0 <= k < |cs| ensures answers[k] == Ok(AllHold(cs[k], item, values, names)) {
      AndHolds(cs[k], item, values, names);
    }
    CombineAll(answers, true);
  }

  /**
   With everything bound, a condition is evaluated to whether all leaves of some conjunction hold,
   exactly when each conjunction with an ambiguous leaf has one before it that holds.
   */
  lemma EvalFaithfulIff(cs: seq<Conjunction>, item: Option<Item>, values: Item, names: map<string, string>)
    requires IsCondition(cs) && forall k | 0 <= k < |cs| :: AllBound(cs[k], values, names)
    ensures Eval(PrintOr(cs), item, values, names) == Ok(SomeHolds(cs, item, values, names)) <==>
              forall k | 0 <= k < |cs| && !IsConjunction(cs[k]) :: SomeHolds(cs[..k], item, values, names)
  {
    OrHolds(cs, item, values, names);
    if forall k | 0 <= k < |cs| :: IsConjunction(cs[k]) {
      EvalPrinted(cs, item, values, names);
    } else {
      var k, i := FirstExists(cs);
      FaithfulAt(cs, k, i, item, values, names);
      HoldsLater(cs, k, i, item, values, names);
    }
  }

  lemma FaithfulAt(cs: seq<Conjunction>, k: nat, i: nat, item: Option<Item>, values: Item, names: map<string, string>)
    requires IsCondition(cs) && FirstAmbiguous(cs, k, i) && forall j | 0 <= j < |cs| :: AllBound(cs[j], values, names)
    ensures Eval(PrintOr(cs), item, values, names) == OrMeaning(cs, item, values, names) <==> SomeHolds(cs[..k], item, values, names)
  {
    EvalExactIff(cs, k, i, item, values, names);
    OrHolds(cs[..k], item, values, names);
    AndHolds(cs[k][..i - 1], item, values, names);
  }

  lemma HoldsLater(cs: seq<Conjunction>, k: nat, i: nat, item: Option<Item>, values: Item, names: map<string, string>)
    requires FirstAmbiguous(cs, k, i)
    ensures SomeHolds(cs[..k], item, values, names) <==>
              forall j | 0 <= j < |cs| && !IsConjunction(cs[j]) :: SomeHolds(cs[..j], item, values, names)
  {
    assert !IsConjunction(cs[k]);
    if SomeHolds(cs[..k], item, values, names) {
      var h :| 0 <= h < k && AllHold(cs[..k][h], item, values, names);
      forall j | 0 <= j < |cs| && !IsConjunction(cs[j]) ensures SomeHolds(cs[..j], item, values, names) {
        assert cs[..j][h] == cs[h];
      }
    }
  }

  lemma OrAsNameText()
    ensures PrintLeaf(Equals("a", ":x")) == "a = :x" && PrintLeaf(Equals("OR", ":y")) == "OR = :y"
    ensures "a = :x" + (AND_TEXT + "OR = :y") == "a = :x AND OR = :y"
  {
  }

  /** An attribute named OR: the text is split at the name and unsupported whatever the row. */
  lemma OrAsName(item: Option<Item>, values: Item, names: map<string, string>)
    ensures Eval("a = :x AND OR = :y", item, values, names) == Err(UnsupportedLeaf)
  {
    var a, b := Equals("a", ":x"), Equals("OR", ":y");
    OrAsNameText();
    TwoLeaves(a, b, item, values, names);
  }

  /** Of two leaves the second is ambiguous. */
  lemma TwoLeaves(a: Leaf, b: Leaf, item: Option<Item>, values: Item, names: map<string, string>)
    requires IsLeaf(a) && IsLeaf(b) && Ambiguous(b)
    ensures Eval(PrintLeaf(a) + (AND_TEXT + PrintLeaf(b)), item, values, names) == Err(UnsupportedLeaf)
  {
    var cs := [[a, b]];
    AndStep([a, b]);
    DanglingTextsOne(b);
    assert [a, b][1..] == [b] && [a, b][..1] == [a] && [a, b][..0] == [];
    assert PrintOr(cs) == PrintAnd([a, b]);
    EvalAmbiguous(cs, 0, 1, item, values, names);
  }

}
