/**
 The evaluator of condition expressions: a disjunction of conjunctions of leaf predicates, split
 at the top level of parentheses and evaluated from left to right with early exit.
 */
module ConditionEval {
  import opened Wrappers
  import opened Strings

  type Item = map<string, string>

  datatype EvalError = UnknownAlias | UnboundPlaceholder | UnsupportedLeaf

  type Answer = Result<bool, EvalError>

  // --- Splitting ---------------------------------------------------------------------

  const OR_TEXT := " OR "
  const AND_TEXT := " AND "

  predicate MatchAt(s: string, sep: string, i: nat) { i + |sep| <= |s| && s[i..i + |sep|] == sep }

  /** The pieces from `last` on, where the scan stands at `i` at the given nesting depth. */
  function Pieces(s: string, sep: string, i: nat, last: nat, depth: int): (parts: seq<string>)
    requires last <= i <= |s| && sep != ""
    ensures parts != []
    decreases |s| - i
  {
    if i == |s| then [s[last..]]
    else if s[i] == '(' then Pieces(s, sep, i + 1, last, depth + 1)
    else if s[i] == ')' then Pieces(s, sep, i + 1, last, depth - 1)
    else if depth == 0 && MatchAt(s, sep, i) then [s[last..i]] + Pieces(s, sep, i + |sep|, i + |sep|, depth)
    else Pieces(s, sep, i + 1, last, depth)
  }

  /** Stripped pieces; blank ones are dropped. */
  function Trimmed(parts: seq<string>): seq<string> {
    if parts == [] then []
    else Trimmed(parts[..|parts| - 1]) + if Strip(parts[|parts| - 1]) != "" then [Strip(parts[|parts| - 1])] else []
  }

  function SplitTopLevel(s: string, sep: string): seq<string>
    requires sep != ""
  {
    Trimmed(Pieces(s, sep, 0, 0, 0))
  }

  method CutPieces(s: string, sep: string) returns (raw: seq<string>)
    requires sep != ""
    ensures raw == Pieces(s, sep, 0, 0, 0)
  {
    raw := [];
    var depth, last, i := 0, 0, 0;
    while i < |s|
      invariant 0 <= last <= i <= |s|
      invariant raw + Pieces(s, sep, i, last, depth) == Pieces(s, sep, 0, 0, 0)
    {
      if s[i] == '(' {
        depth := depth + 1;
      } else if s[i] == ')' {
        depth := depth - 1;
      } else if depth == 0 && MatchAt(s, sep, i) {
        raw := raw + [s[last..i]];
        last := i + |sep|;
        i := i + |sep|;
        continue;
      }
      i := i + 1;
    }
    raw := raw + [s[last..]];
  }

  method SplitExpression(s: string, sep: string) returns (parts: seq<string>)
    requires sep != ""
    ensures parts == SplitTopLevel(s, sep)
  {
    var raw := CutPieces(s, sep);
    parts := [];
    for k := 0 to |raw|
      invariant parts == Trimmed(raw[..k])
    {
      assert raw[..k + 1][..k] == raw[..k];
      if Strip(raw[k]) != "" { parts := parts + [Strip(raw[k])]; }
    }
    assert raw[..|raw|] == raw;
  }

  lemma {:induction false} StripShortens(s: string)
    ensures |Strip(s)| <= |s|
    decreases |s|
  {
    if s != "" {
      if IsSpace(s[0]) { StripShortens(s[1..]); }
      else if IsSpace(s[|s| - 1]) { StripShortens(s[..|s| - 1]); }
    }
  }

  /** Together the pieces are no longer than what is left to scan, less a separator for each cut. */
  lemma {:induction false} PiecesShort(s: string, sep: string, i: nat, last: nat, depth: int, p: string)
    requires last <= i <= |s| && sep != "" && p in Pieces(s, sep, i, last, depth)
    ensures |p| <= |s| - last && (|Pieces(s, sep, i, last, depth)| > 1 ==> |p| < |s| - last)
    decreases |s| - i
  {
    if i < |s| {
      if s[i] == '(' { PiecesShort(s, sep, i + 1, last, depth + 1, p); }
      else if s[i] == ')' { PiecesShort(s, sep, i + 1, last, depth - 1, p); }
      else if depth == 0 && MatchAt(s, sep, i) {
        if p != s[last..i] { PiecesShort(s, sep, i + |sep|, i + |sep|, depth, p); }
      } else { PiecesShort(s, sep, i + 1, last, depth, p); }
    }
  }

  lemma {:induction false} TrimmedFrom(parts: seq<string>, p: string)
    requires p in Trimmed(parts)
    ensures exists q :: q in parts && p == Strip(q)
    ensures |Trimmed(parts)| <= |parts|
  {
    var rest, last := parts[..|parts| - 1], parts[|parts| - 1];
    if p in Trimmed(rest) {
      TrimmedFrom(rest, p);
      var q :| q in rest && p == Strip(q);
      assert q in parts;
    } else {
      assert last in parts;
      TrimmedLength(rest);
    }
  }

  lemma {:induction false} TrimmedLength(parts: seq<string>)
    ensures |Trimmed(parts)| <= |parts|
  {
    if parts != [] { TrimmedLength(parts[..|parts| - 1]); }
  }

  /** Splitting in two or more yields strictly shorter parts: the recursion of the evaluator ends. */
  lemma PartsShorter(s: string, sep: string)
    requires sep != "" && |SplitTopLevel(s, sep)| > 1
    ensures forall p | p in SplitTopLevel(s, sep) :: |p| < |s|
  {
    forall p | p in SplitTopLevel(s, sep) ensures |p| < |s| {
      var pieces := Pieces(s, sep, 0, 0, 0);
      TrimmedFrom(pieces, p);
      var q :| q in pieces && p == Strip(q);
      PiecesShort(s, sep, 0, 0, 0, q);
      StripShortens(q);
    }
  }

  // --- Leaves ------------------------------------------------------------------------------

  predicate WordChar(c: char) { 'a' <= c <= 'z' || 'A' <= c <= 'Z' || '0' <= c <= '9' || c == '_' }

  predicate IsToken(t: string) { t != "" && forall i | 0 <= i < |t| :: WordChar(t[i]) || t[i] == '#' }

  predicate IsPlaceholder(p: string) { |p| >= 2 && p[0] == ':' && forall i | 1 <= i < |p| :: WordChar(p[i]) }

  datatype Leaf = NotExists(token: string) | Exists(token: string) | Equals(token: string, placeholder: string)

  const NOT_EXISTS := "attribute_not_exists("
  const EXISTS := "attribute_exists("

  /** The token between a prefix and a closing parenthesis. */
  function Argument(expr: string, prefix: string): Option<string> {
    if |expr| > |prefix| && expr[..|prefix|] == prefix && expr[|expr| - 1] == ')' then
      var t := Strip(expr[|prefix|..|expr| - 1]);
      if IsToken(t) then Some(t) else None
    else None
  }

  function FindEquals(s: string): (k: nat)
    ensures k <= |s| && (k < |s| ==> s[k] == '=') && forall i | 0 <= i < k :: s[i] != '='
  {
    if s == "" || s[0] == '=' then 0 else 1 + FindEquals(s[1..])
  }

  function ParseLeaf(expr: string): Option<Leaf> {
    var a, b := Argument(expr, NOT_EXISTS), Argument(expr, EXISTS);
    if a.Some? then Some(NotExists(a.value))
    else if b.Some? then Some(Exists(b.value))
    else ParseEquals(expr)
  }

  function ParseEquals(expr: string): Option<Leaf> {
    var k := FindEquals(expr);
    if k == |expr| then None
    else
      var t, p := Strip(expr[..k]), Strip(expr[k + 1..]);
      if IsToken(t) && IsPlaceholder(p) then Some(Equals(t, p)) else None
  }

  function ResolveName(token: string, names: map<string, string>): Result<string, EvalError>
  {
    if token == "" || token[0] != '#' then Ok(token) else if token in names then Ok(names[token]) else Err(UnknownAlias)
  }

  function EvalLeaf(leaf: Leaf, item: Option<Item>, values: Item, names: map<string, string>): Answer {
    var attr := ResolveName(leaf.token, names);
    if attr.Err? then Err(attr.error)
    else
      match leaf
      case NotExists(_) => Ok(item.None? || attr.value !in item.value)
      case Exists(_) => Ok(item.Some? && attr.value in item.value)
      case Equals(_, p) =>
        if p !in values then Err(UnboundPlaceholder)
        else Ok(item.Some? && attr.value in item.value && item.value[attr.value] == values[p])
  }

  // --- The evaluator --------------------------------------------------------------------------

  function Eval(text: string, item: Option<Item>, values: Item, names: map<string, string>): Answer
    decreases |text| + 1, 0
  {
    StripShortens(text);
    var expr := Strip(text);
    var ors, ands := SplitTopLevel(expr, OR_TEXT), SplitTopLevel(expr, AND_TEXT);
    if |ors| > 1 then PartsShorter(expr, OR_TEXT); Search(ors, |expr|, true, item, values, names)
    else if |ands| > 1 then PartsShorter(expr, AND_TEXT); Search(ands, |expr|, false, item, values, names)
    else
      var leaf := ParseLeaf(expr);
      if leaf.None? then Err(UnsupportedLeaf) else EvalLeaf(leaf.value, item, values, names)
  }

  /** The first part that is an error or equals `stop`; failing that, the opposite. */
  function Search(parts: seq<string>, n: nat, stop: bool, item: Option<Item>, values: Item, names: map<string, string>): Answer
    requires forall p | p in parts :: |p| < n
    decreases n, |parts|
  {
    if parts == [] then Ok(!stop)
    else
      var first := Eval(parts[0], item, values, names);
      if first.Err? || first.value == stop then first else Search(parts[1..], n, stop, item, values, names)
  }

  // --- Printed conditions ------------------------------------------------------------------------

  type Conjunction = seq<Leaf>

  predicate IsLeaf(l: Leaf) { IsToken(l.token) && (l.Equals? ==> IsPlaceholder(l.placeholder)) }

  function PrintLeaf(l: Leaf): string {
    match l
    case NotExists(t) => NOT_EXISTS + t + ")"
    case Exists(t) => EXISTS + t + ")"
    case Equals(t, p) => t + (" = " + p)
  }

  function LeafTexts(ls: Conjunction): (r: seq<string>)
    ensures |r| == |ls| && forall i | 0 <= i < |ls| :: r[i] == PrintLeaf(ls[i])
  {
    seq(|ls|, i requires 0 <= i < |ls| => PrintLeaf(ls[i]))
  }

  function PrintAnd(ls: Conjunction): string { Join(LeafTexts(ls), AND_TEXT) }

  function AndTexts(cs: seq<Conjunction>): (r: seq<string>)
    ensures |r| == |cs| && forall i | 0 <= i < |cs| :: r[i] == PrintAnd(cs[i])
  {
    seq(|cs|, i requires 0 <= i < |cs| => PrintAnd(cs[i]))
  }

  function PrintOr(cs: seq<Conjunction>): string { Join(AndTexts(cs), OR_TEXT) }

  /** An equality on a name spelled OR: right after an AND it reads as the operator. */
  predicate Ambiguous(l: Leaf) { l.Equals? && l.token == "OR" }

  predicate IsConjunction(ls: Conjunction) {
    ls != [] && (forall i | 0 <= i < |ls| :: IsLeaf(ls[i])) && forall i | 1 <= i < |ls| :: !Ambiguous(ls[i])
  }

  // --- Scanning a printed condition ---------------------------------------------------------------

  /** The scan goes from `i` to `j` without a cut and ends at depth zero. */
  predicate Passes(s: string, sep: string, i: nat, j: nat, depth: int)
    requires i <= j <= |s|
    decreases j - i
  {
    if i == j then depth == 0
    else if s[i] == '(' then Passes(s, sep, i + 1, j, depth + 1)
    else if s[i] == ')' then Passes(s, sep, i + 1, j, depth - 1)
    else !(depth == 0 && MatchAt(s, sep, i)) && Passes(s, sep, i + 1, j, depth)
  }

  lemma {:induction false} PassesJoin(s: string, sep: string, i: nat, m: nat, j: nat, depth: int)
    requires i <= m <= j <= |s| && Passes(s, sep, i, m, depth) && Passes(s, sep, m, j, 0)
    ensures Passes(s, sep, i, j, depth)
    decreases m - i
  {
    if i < m {
      PassesJoin(s, sep, i + 1, m, j, if s[i] == '(' then depth + 1 else if s[i] == ')' then depth - 1 else depth);
    }
  }

  lemma {:induction false} PiecesPass(s: string, sep: string, i: nat, j: nat, last: nat, depth: int)
    requires last <= i <= j <= |s| && sep != "" && Passes(s, sep, i, j, depth)
    ensures Pieces(s, sep, i, last, depth) == Pieces(s, sep, j, last, 0)
    decreases j - i
  {
    if i < j {
      PiecesPass(s, sep, i + 1, j, last, if s[i] == '(' then depth + 1 else if s[i] == ')' then depth - 1 else depth);
    }
  }

  /** Outside parentheses a stretch passes if no position in it starts a separator. */
  lemma {:induction false} PlainPasses(s: string, sep: string, i: nat, j: nat)
    requires i <= j <= |s| && forall k | i <= k < j :: s[k] != '(' && s[k] != ')' && !MatchAt(s, sep, k)
    ensures Passes(s, sep, i, j, 0)
    decreases j - i
  {
    if i < j { PlainPasses(s, sep, i + 1, j); }
  }

  lemma {:induction false} InnerPasses(s: string, sep: string, i: nat, j: nat)
    requires i < j <= |s| && s[j - 1] == ')' && forall k | i <= k < j - 1 :: s[k] != '(' && s[k] != ')'
    ensures Passes(s, sep, i, j, 1)
    decreases j - i
  {
    if i + 1 < j { InnerPasses(s, sep, i + 1, j); }
  }

  /** `part` stands at position `i` of `s`. */
  predicate At(s: string, i: nat, part: string) { i + |part| <= |s| && s[i..i + |part|] == part }

  lemma AtChar(s: string, i: nat, part: string, k: nat)
    requires At(s, i, part) && k < |part|
    ensures s[i + k] == part[k]
  {
    assert s[i..i + |part|][k] == part[k];
  }

  lemma AtPrefix(s: string, i: nat, a: string, b: string)
    requires At(s, i, a + b)
    ensures At(s, i, a) && At(s, i + |a|, b)
  {
    var ab := a + b;
    assert s[i..i + |a|] == s[i..i + |ab|][..|a|] == ab[..|a|] == a;
    assert s[i + |a|..i + |a| + |b|] == s[i..i + |ab|][|a|..] == ab[|a|..] == b;
  }

  predicate IsSeparator(sep: string) { sep == OR_TEXT || sep == AND_TEXT }

  /** A separator starts with a space and a letter. */
  lemma MatchStarts(s: string, sep: string, k: nat)
    requires IsSeparator(sep) && k < |s|
    ensures MatchAt(s, sep, k) ==> s[k] == ' ' && k + 1 < |s| && s[k + 1] == sep[1]
  {
    if MatchAt(s, sep, k) {
      assert s[k..k + |sep|][0] == s[k] && s[k..k + |sep|][1] == s[k + 1];
    }
  }

  lemma WordsPass(s: string, sep: string, i: nat, word: string)
    requires IsSeparator(sep) && At(s, i, word)
    requires forall k | 0 <= k < |word| :: word[k] != '(' && word[k] != ')' && word[k] != ' '
    ensures Passes(s, sep, i, i + |word|, 0)
  {
    forall k | i <= k < i + |word| ensures s[k] != '(' && s[k] != ')' && !MatchAt(s, sep, k) {
      AtChar(s, i, word, k - i);
      MatchStarts(s, sep, k);
    }
    PlainPasses(s, sep, i, i + |word|);
  }

  lemma ParenthesisPasses(s: string, sep: string, i: nat, t: string)
    requires IsSeparator(sep) && IsToken(t) && At(s, i, "(" + t + ")")
    ensures Passes(s, sep, i, i + |t| + 2, 0)
  {
    var text := "(" + t + ")";
    forall k | 0 <= k < |text| ensures s[i + k] == text[k] { AtChar(s, i, text, k); }
    forall k | i + 1 <= k < i + |t| + 1 ensures s[k] != '(' && s[k] != ')' { assert s[k] == text[k - i] == t[k - i - 1]; }
    InnerPasses(s, sep, i + 1, i + |t| + 2);
  }

  lemma ExistsPasses(s: string, sep: string, i: nat, word: string, t: string)
    requires IsSeparator(sep) && (word == "attribute_not_exists" || word == "attribute_exists") && IsToken(t)
    requires At(s, i, word + ("(" + t + ")"))
    ensures Passes(s, sep, i, i + |word| + |t| + 2, 0)
  {
    AtPrefix(s, i, word, "(" + t + ")");
    WordsPass(s, sep, i, word);
    ParenthesisPasses(s, sep, i + |word|, t);
    PassesJoin(s, sep, i, i + |word|, i + |word| + |t| + 2, 0);
  }

  lemma EqualSignPasses(s: string, sep: string, m: nat)
    requires IsSeparator(sep) && At(s, m, " = ") && m + 3 < |s| && s[m + 3] == ':'
    ensures Passes(s, sep, m, m + 3, 0)
  {
    AtChar(s, m, " = ", 0);
    AtChar(s, m, " = ", 1);
    AtChar(s, m, " = ", 2);
    forall k | m <= k < m + 3 ensures s[k] != '(' && s[k] != ')' && !MatchAt(s, sep, k) { MatchStarts(s, sep, k); }
    PlainPasses(s, sep, m, m + 3);
  }

  lemma EqualsPasses(s: string, sep: string, i: nat, t: string, p: string)
    requires IsSeparator(sep) && IsToken(t) && IsPlaceholder(p) && At(s, i, t + (" = " + p))
    ensures Passes(s, sep, i, i + |t| + 3 + |p|, 0)
  {
    var m := i + |t|;
    AtPrefix(s, i, t, " = " + p);
    WordsPass(s, sep, i, t);
    ValuePasses(s, sep, m, p);
    PassesJoin(s, sep, i, m, m + 3 + |p|, 0);
  }

  lemma ValuePasses(s: string, sep: string, m: nat, p: string)
    requires IsSeparator(sep) && IsPlaceholder(p) && At(s, m, " = " + p)
    ensures Passes(s, sep, m, m + 3 + |p|, 0)
  {
    AtPrefix(s, m, " = ", p);
    AtChar(s, m + 3, p, 0);
    EqualSignPasses(s, sep, m);
    WordsPass(s, sep, m + 3, p);
    PassesJoin(s, sep, m, m + 3, m + 3 + |p|, 0);
  }

  lemma LeafPasses(s: string, sep: string, i: nat, l: Leaf)
    requires IsSeparator(sep) && IsLeaf(l) && At(s, i, PrintLeaf(l))
    ensures Passes(s, sep, i, i + |PrintLeaf(l)|, 0)
  {
    match l
    case NotExists(t) =>
      assert PrintLeaf(l) == "attribute_not_exists" + ("(" + t + ")");
      ExistsPasses(s, sep, i, "attribute_not_exists", t);
    case Exists(t) =>
      assert PrintLeaf(l) == "attribute_exists" + ("(" + t + ")");
      ExistsPasses(s, sep, i, "attribute_exists", t);
    case Equals(t, p) =>
      EqualsPasses(s, sep, i, t, p);
  }

  /** No OR begins within an AND, not even at its last space, unless the next leaf is ambiguous. */
  lemma AndPassesOr(s: string, i: nat, next: Leaf)
    requires At(s, i, AND_TEXT + PrintLeaf(next)) && IsLeaf(next) && !Ambiguous(next)
    ensures Passes(s, OR_TEXT, i, i + |AND_TEXT|, 0)
  {
    AtPrefix(s, i, AND_TEXT, PrintLeaf(next));
    forall k | 0 <= k < 5 ensures s[i + k] == AND_TEXT[k] { AtChar(s, i, AND_TEXT, k); }
    if MatchAt(s, OR_TEXT, i + 4) { NextIsOr(s, i + 5, next); }
    forall k | i <= k < i + 5 ensures s[k] != '(' && s[k] != ')' && !MatchAt(s, OR_TEXT, k) {
      assert s[k] == AND_TEXT[k - i];
      if k < i + 4 { MatchStarts(s, OR_TEXT, k); }
    }
    PlainPasses(s, OR_TEXT, i, i + 5);
  }

  lemma NextIsOr(s: string, i: nat, next: Leaf)
    requires i >= 1 && At(s, i, PrintLeaf(next)) && IsLeaf(next) && MatchAt(s, OR_TEXT, i - 1)
    ensures Ambiguous(next)
  {
    var text := PrintLeaf(next);
    assert s[i - 1..i + 3][1] == 'O' && s[i - 1..i + 3][2] == 'R' && s[i - 1..i + 3][3] == ' ';
    AtChar(s, i, text, 0);
    if next.Equals? {
      var t := next.token;
      assert text == t + (" = " + next.placeholder);
      AtChar(s, i, text, 1);
      AtChar(s, i, text, 2);
      assert forall k | 0 <= k < |t| :: text[k] == t[k];
      assert |t| == 2;
      assert t == "OR";
    }
  }

  /** Wherever the part stands in the text, the scan passes it. */
  ghost predicate PassesAnywhere(s: string, sep: string, part: string) {
    forall j: nat | At(s, j, part) :: Passes(s, sep, j, j + |part|, 0)
  }

  /** An AND right before the part does not begin an OR. */
  ghost predicate AndPassesBefore(s: string, part: string) {
    forall j: nat | At(s, j, AND_TEXT + part) :: Passes(s, OR_TEXT, j, j + |AND_TEXT|, 0)
  }

  lemma JoinStarts(parts: seq<string>, sep: string) returns (tail: string)
    requires parts != []
    ensures Join(parts, sep) == parts[0] + tail
  {
    tail := if |parts| == 1 then "" else sep + Join(parts[1..], sep);
  }

  /** The scan for OR passes a part and the AND after it. */
  lemma PartThenAnd(s: string, i: nat, first: string, rest: seq<string>)
    requires PassesAnywhere(s, OR_TEXT, first) && rest != [] && AndPassesBefore(s, rest[0])
    requires At(s, i, first + (AND_TEXT + Join(rest, AND_TEXT)))
    ensures At(s, i + |first| + |AND_TEXT|, Join(rest, AND_TEXT))
    ensures Passes(s, OR_TEXT, i, i + |first| + |AND_TEXT|, 0)
  {
    var m := i + |first|;
    AtPrefix(s, i, first, AND_TEXT + Join(rest, AND_TEXT));
    AtPrefix(s, m, AND_TEXT, Join(rest, AND_TEXT));
    var tail := JoinStarts(rest, AND_TEXT);
    assert AND_TEXT + Join(rest, AND_TEXT) == (AND_TEXT + rest[0]) + tail;
    AtPrefix(s, m, AND_TEXT + rest[0], tail);
    PassesJoin(s, OR_TEXT, i, m, m + |AND_TEXT|, 0);
  }

  lemma {:induction false} JoinedPassesOr(s: string, i: nat, parts: seq<string>)
    requires parts != [] && At(s, i, Join(parts, AND_TEXT))
    requires forall k | 0 <= k < |parts| :: PassesAnywhere(s, OR_TEXT, parts[k])
    requires forall k | 1 <= k < |parts| :: AndPassesBefore(s, parts[k])
    ensures Passes(s, OR_TEXT, i, i + |Join(parts, AND_TEXT)|, 0)
    decreases |parts|
  {
    if |parts| > 1 {
      var m := i + |parts[0]| + |AND_TEXT|;
      PartThenAnd(s, i, parts[0], parts[1..]);
      JoinedPassesOr(s, m, parts[1..]);
      PassesJoin(s, OR_TEXT, i, m, m + |Join(parts[1..], AND_TEXT)|, 0);
    }
  }

  lemma CutHere(s: string, sep: string, i: nat, first: string, rest: string)
    requires IsSeparator(sep) && At(s, i, first + (sep + rest)) && PassesAnywhere(s, sep, first)
    ensures At(s, i + |first| + |sep|, rest)
    ensures Pieces(s, sep, i, i, 0) == [first] + Pieces(s, sep, i + |first| + |sep|, i + |first| + |sep|, 0)
  {
    AtPrefix(s, i, first, sep + rest);
    AtPrefix(s, i + |first|, sep, rest);
    var m := i + |first|;
    PiecesPass(s, sep, i, m, i, 0);
    AtChar(s, m, sep, 0);
  }

  /** Every part passes, so cutting at the separators gives back the parts. */
  lemma {:induction false} PiecesOfJoined(s: string, sep: string, i: nat, parts: seq<string>)
    requires IsSeparator(sep) && parts != [] && i + |Join(parts, sep)| == |s| && At(s, i, Join(parts, sep))
    requires forall k | 0 <= k < |parts| :: PassesAnywhere(s, sep, parts[k])
    ensures Pieces(s, sep, i, i, 0) == parts
    decreases |parts|
  {
    if |parts| == 1 {
      PiecesPass(s, sep, i, |s|, i, 0);
      assert s[i..] == s[i..|s|] == parts[0];
    } else {
      var rest := parts[1..];
      CutHere(s, sep, i, parts[0], Join(rest, sep));
      PiecesOfJoined(s, sep, i + |parts[0]| + |sep|, rest);
      assert parts == [parts[0]] + rest;
    }
  }

  /** Parts without outer white space survive trimming. */
  predicate Tight(p: string) { p != "" && !IsSpace(p[0]) && !IsSpace(p[|p| - 1]) }

  lemma {:induction false} TrimmedTight(parts: seq<string>)
    requires forall k | 0 <= k < |parts| :: Tight(parts[k])
    ensures Trimmed(parts) == parts
  {
    if parts != [] {
      TrimmedTight(parts[..|parts| - 1]);
      assert parts == parts[..|parts| - 1] + [parts[|parts| - 1]];
    }
  }

  lemma LeafTight(l: Leaf)
    requires IsLeaf(l)
    ensures Tight(PrintLeaf(l))
  {
    if l.Equals? { assert PrintLeaf(l)[|PrintLeaf(l)| - 1] == l.placeholder[|l.placeholder| - 1]; }
  }

  lemma {:induction false} JoinedTight(parts: seq<string>, sep: string)
    requires parts != [] && forall k | 0 <= k < |parts| :: Tight(parts[k])
    ensures Tight(Join(parts, sep))
  {
    if |parts| > 1 {
      JoinedTight(parts[1..], sep);
      var rest := Join(parts[1..], sep);
      assert Join(parts, sep) == parts[0] + (sep + rest);
      assert Join(parts, sep)[|Join(parts, sep)| - 1] == rest[|rest| - 1];
    }
  }

  lemma AndTight(ls: Conjunction)
    requires IsConjunction(ls)
    ensures Tight(PrintAnd(ls))
  {
    forall k | 0 <= k < |ls| ensures Tight(LeafTexts(ls)[k]) { LeafTight(ls[k]); }
    JoinedTight(LeafTexts(ls), AND_TEXT);
  }

  lemma ConjunctionAnywhere(s: string, ls: Conjunction)
    requires IsConjunction(ls)
    ensures PassesAnywhere(s, OR_TEXT, PrintAnd(ls))
  {
    var parts := LeafTexts(ls);
    forall k | 0 <= k < |parts| ensures PassesAnywhere(s, OR_TEXT, parts[k]) { LeafAnywhere(s, OR_TEXT, ls[k]); }
    forall k | 1 <= k < |parts| ensures AndPassesBefore(s, parts[k]) { NoOrBefore(s, ls[k]); }
    forall j: nat | At(s, j, PrintAnd(ls)) ensures Passes(s, OR_TEXT, j, j + |PrintAnd(ls)|, 0) {
      JoinedPassesOr(s, j, parts);
    }
  }

  lemma NoOrBefore(s: string, next: Leaf)
    requires IsLeaf(next) && !Ambiguous(next)
    ensures AndPassesBefore(s, PrintLeaf(next))
  {
    forall j: nat | At(s, j, AND_TEXT + PrintLeaf(next)) ensures Passes(s, OR_TEXT, j, j + |AND_TEXT|, 0) {
      AndPassesOr(s, j, next);
    }
  }

  lemma LeafAnywhere(s: string, sep: string, l: Leaf)
    requires IsSeparator(sep) && IsLeaf(l)
    ensures PassesAnywhere(s, sep, PrintLeaf(l))
  {
    forall j: nat | At(s, j, PrintLeaf(l)) ensures Passes(s, sep, j, j + |PrintLeaf(l)|, 0) {
      LeafPasses(s, sep, j, l);
    }
  }

  /** A text made of tight parts that pass splits into exactly those parts. */
  lemma SplitParts(parts: seq<string>, sep: string)
    requires IsSeparator(sep) && parts != []
    requires forall k | 0 <= k < |parts| :: Tight(parts[k]) && PassesAnywhere(Join(parts, sep), sep, parts[k])
    ensures SplitTopLevel(Join(parts, sep), sep) == parts
  {
    PiecesOfJoined(Join(parts, sep), sep, 0, parts);
    TrimmedTight(parts);
  }

  lemma SplitOr(cs: seq<Conjunction>)
    requires cs != [] && forall k | 0 <= k < |cs| :: IsConjunction(cs[k])
    ensures SplitTopLevel(PrintOr(cs), OR_TEXT) == AndTexts(cs)
  {
    var parts := AndTexts(cs);
    forall k | 0 <= k < |parts| ensures Tight(parts[k]) && PassesAnywhere(PrintOr(cs), OR_TEXT, parts[k]) {
      AndTight(cs[k]);
      ConjunctionAnywhere(PrintOr(cs), cs[k]);
    }
    SplitParts(parts, OR_TEXT);
  }

  lemma SplitAnd(ls: Conjunction)
    requires IsConjunction(ls)
    ensures SplitTopLevel(PrintAnd(ls), AND_TEXT) == LeafTexts(ls)
  {
    var parts := LeafTexts(ls);
    forall k | 0 <= k < |parts| ensures Tight(parts[k]) && PassesAnywhere(PrintAnd(ls), AND_TEXT, parts[k]) {
      LeafTight(ls[k]);
      LeafAnywhere(PrintAnd(ls), AND_TEXT, ls[k]);
    }
    SplitParts(parts, AND_TEXT);
  }

  // --- The printed text means the condition --------------------------------------------------------

  lemma PrintedArgument(prefix: string, t: string)
    requires IsToken(t)
    ensures Argument(prefix + t + ")", prefix) == Some(t)
  {
    var expr := prefix + t + ")";
    assert expr[..|prefix|] == prefix;
    assert expr[|prefix|..|expr| - 1] == t;
  }

  lemma LeafParses(l: Leaf)
    requires IsLeaf(l)
    ensures ParseLeaf(PrintLeaf(l)) == Some(l)
  {
    var expr := PrintLeaf(l);
    match l
    case NotExists(t) => PrintedArgument(NOT_EXISTS, t);
    case Exists(t) =>
      PrintedArgument(EXISTS, t);
      assert expr[10] == 'e' && NOT_EXISTS[10] == 'n';
      assert expr[..|EXISTS|] == EXISTS;
      assert |expr| > |NOT_EXISTS| ==> expr[..|NOT_EXISTS|][10] == 'e';
    case Equals(t, p) => EqualsParses(t, p);
  }

  lemma EqualsParses(t: string, p: string)
    requires IsToken(t) && IsPlaceholder(p)
    ensures ParseLeaf(PrintLeaf(Equals(t, p))) == Some(Equals(t, p))
  {
    var expr := t + (" = " + p);
    assert expr[|expr| - 1] == p[|p| - 1];
    NoArgument(expr);
    SignAt(t, p);
    StripSpaces(t, p);
  }

  lemma NoArgument(expr: string)
    requires expr != "" && expr[|expr| - 1] != ')'
    ensures Argument(expr, NOT_EXISTS).None? && Argument(expr, EXISTS).None?
  {
  }

  lemma SignAt(t: string, p: string)
    requires IsToken(t)
    ensures var expr := t + (" = " + p); FindEquals(expr) == |t| + 1 && expr[..|t| + 1] == t + " " && expr[|t| + 2..] == " " + p
  {
    var expr := t + (" = " + p);
    assert forall k | 0 <= k < |t| :: expr[k] == t[k];
    assert expr[|t|] == ' ' && expr[|t| + 1] == '=';
  }

  lemma StripSpaces(t: string, p: string)
    requires Tight(t) && Tight(p)
    ensures Strip(t + " ") == t && Strip(" " + p) == p
  {
    assert (t + " ")[..|t|] == t && (" " + p)[1..] == p;
  }

  /** The meaning of a condition, from left to right. */
  function Combine(answers: seq<Answer>, stop: bool): Answer {
    if answers == [] then Ok(!stop)
    else if answers[0].Err? || answers[0].value == stop then answers[0] else Combine(answers[1..], stop)
  }

  function AndMeaning(ls: Conjunction, item: Option<Item>, values: Item, names: map<string, string>): Answer {
    Combine(seq(|ls|, i requires 0 <= i < |ls| => EvalLeaf(ls[i], item, values, names)), false)
  }

  function OrMeaning(cs: seq<Conjunction>, item: Option<Item>, values: Item, names: map<string, string>): Answer {
    Combine(seq(|cs|, i requires 0 <= i < |cs| => AndMeaning(cs[i], item, values, names)), true)
  }

  lemma {:induction false} SearchCombines(parts: seq<string>, answers: seq<Answer>, n: nat, stop: bool,
                                          item: Option<Item>, values: Item, names: map<string, string>)
    requires |parts| == |answers| && forall p | p in parts :: |p| < n
    requires forall i | 0 <= i < |parts| :: Eval(parts[i], item, values, names) == answers[i]
    ensures Search(parts, n, stop, item, values, names) == Combine(answers, stop)
    decreases |parts|
  {
    if parts != [] {
      SearchCombines(parts[1..], answers[1..], n, stop, item, values, names);
    }
  }

  lemma EvalPrintedLeaf(l: Leaf, item: Option<Item>, values: Item, names: map<string, string>)
    requires IsLeaf(l)
    ensures Eval(PrintLeaf(l), item, values, names) == EvalLeaf(l, item, values, names)
  {
    assert PrintAnd([l]) == PrintLeaf(l);
    assert PrintOr([[l]]) == PrintLeaf(l);
    SplitOr([[l]]);
    SplitAnd([l]);
    LeafTight(l);
    LeafParses(l);
  }

  lemma EvalPrintedAnd(ls: Conjunction, item: Option<Item>, values: Item, names: map<string, string>)
    requires IsConjunction(ls)
    ensures Eval(PrintAnd(ls), item, values, names) == AndMeaning(ls, item, values, names)
  {
    var answers := seq(|ls|, i requires 0 <= i < |ls| => EvalLeaf(ls[i], item, values, names));
    forall i | 0 <= i < |ls| ensures Eval(LeafTexts(ls)[i], item, values, names) == answers[i] {
      EvalPrintedLeaf(ls[i], item, values, names);
    }
    if |ls| > 1 {
      var s := PrintAnd(ls);
      assert PrintOr([ls]) == s;
      SplitOr([ls]);
      SplitAnd(ls);
      AndTight(ls);
      PartsShorter(s, AND_TEXT);
      SearchCombines(LeafTexts(ls), answers, |s|, false, item, values, names);
    } else {
      assert PrintAnd(ls) == PrintLeaf(ls[0]);
      OneAnswer(answers, false);
    }
  }

  lemma OneAnswer(answers: seq<Answer>, stop: bool)
    requires |answers| == 1
    ensures Combine(answers, stop) == answers[0]
  {
    assert Combine(answers[1..], stop) == Ok(!stop);
  }

  /**
   Evaluating the printed text of any disjunction of conjunctions gives its meaning, for present and
   absent rows, with OR looser than AND, errors and early exit included.
   */
  lemma EvalPrinted(cs: seq<Conjunction>, item: Option<Item>, values: Item, names: map<string, string>)
    requires cs != [] && forall k | 0 <= k < |cs| :: IsConjunction(cs[k])
    ensures Eval(PrintOr(cs), item, values, names) == OrMeaning(cs, item, values, names)
  {
    var answers := seq(|cs|, i requires 0 <= i < |cs| => AndMeaning(cs[i], item, values, names));
    forall i | 0 <= i < |cs| ensures Eval(AndTexts(cs)[i], item, values, names) == answers[i] {
      EvalPrintedAnd(cs[i], item, values, names);
    }
    if |cs| > 1 {
      var s := PrintOr(cs);
      SplitOr(cs);
      forall k | 0 <= k < |cs| ensures Tight(AndTexts(cs)[k]) { AndTight(cs[k]); }
      JoinedTight(AndTexts(cs), OR_TEXT);
      PartsShorter(s, OR_TEXT);
      SearchCombines(AndTexts(cs), answers, |s|, true, item, values, names);
    } else {
      assert PrintOr(cs) == PrintAnd(cs[0]);
      OneAnswer(answers, true);
    }
  }

  /** Every alias and every placeholder of the leaf is bound. */
  predicate Bound(l: Leaf, values: Item, names: map<string, string>) {
    ResolveName(l.token, names).Ok? && (l.Equals? ==> l.placeholder in values)
  }

  predicate AllBound(ls: Conjunction, values: Item, names: map<string, string>) {
    forall i | 0 <= i < |ls| :: Bound(ls[i], values, names)
  }

  /** Whether a leaf holds of a row, present or absent. */
  predicate Holds(l: Leaf, item: Option<Item>, values: Item, names: map<string, string>) {
    var attr := ResolveName(l.token, names);
    attr.Ok? &&
    match l
    case NotExists(_) => item.None? || attr.value !in item.value
    case Exists(_) => item.Some? && attr.value in item.value
    case Equals(_, p) => item.Some? && attr.value in item.value && p in values && item.value[attr.value] == values[p]
  }

  predicate AllHold(ls: Conjunction, item: Option<Item>, values: Item, names: map<string, string>) {
    forall i | 0 <= i < |ls| :: Holds(ls[i], item, values, names)
  }

  lemma {:induction false} CombineAll(answers: seq<Answer>, stop: bool)
    requires forall i | 0 <= i < |answers| :: answers[i].Ok?
    ensures Combine(answers, stop).Ok?
    ensures Combine(answers, stop).value == stop <==> exists i :: 0 <= i < |answers| && answers[i].value == stop
  {
    if answers != [] {
      CombineAll(answers[1..], stop);
      if i :| 0 <= i < |answers[1..]| && answers[1..][i].value == stop { assert answers[i + 1].value == stop; }
      if i :| 1 <= i < |answers| && answers[i].value == stop { assert answers[1..][i - 1].value == stop; }
    }
  }

  lemma AndHolds(ls: Conjunction, item: Option<Item>, values: Item, names: map<string, string>)
    requires AllBound(ls, values, names)
    ensures AndMeaning(ls, item, values, names) == Ok(AllHold(ls, item, values, names))
  {
    var answers := seq(|ls|, i requires 0 <= i < |ls| => EvalLeaf(ls[i], item, values, names));
    forall i | 0 <= i < |ls| ensures answers[i] == Ok(Holds(ls[i], item, values, names)) {
      assert Bound(ls[i], values, names);
    }
    CombineAll(answers, false);
  }

  /** With everything bound, the text is true exactly when all leaves of some conjunction hold. */
  lemma EvalFaithful(cs: seq<Conjunction>, item: Option<Item>, values: Item, names: map<string, string>)
    requires cs != [] && forall k | 0 <= k < |cs| :: IsConjunction(cs[k]) && AllBound(cs[k], values, names)
    ensures Eval(PrintOr(cs), item, values, names)
         == Ok(exists k :: 0 <= k < |cs| && AllHold(cs[k], item, values, names))
  {
    EvalPrinted(cs, item, values, names);
    var answers := seq(|cs|, i requires 0 <= i < |cs| => AndMeaning(cs[i], item, values, names));
    forall k | 0 <= k < |cs| ensures answers[k] == Ok(AllHold(cs[k], item, values, names)) {
      AndHolds(cs[k], item, values, names);
    }
    CombineAll(answers, true);
  }
}
