/** The criterion language: a recursive-descent parser, its evaluator, and the printer that it inverts. */
module Criterion {
  import opened Common

  datatype Op = Eq | NotEq | Lt | Gt | LtEq | GtEq

  datatype Node =
    | Atom(kind: string, op: Op, value: int)
    | And(left: Node, right: Node)
    | Or(left: Node, right: Node)

  /** A node and the text behind it. */
  datatype Match = Match(node: Node, rest: string)

  // ---- Characters and numbers (ASCII) ----

  predicate IsSpace(c: char) {
    c == ' ' || '\t' <= c <= '\r'
  }

  predicate IsDigit(c: char) {
    '0' <= c <= '9'
  }

  predicate InNumber(c: char) {
    IsDigit(c) || c == '-'
  }

  function TrimStart(s: string): (r: string)
    ensures |r| <= |s|
    ensures r != [] ==> !IsSpace(r[0])
  {
    if s != [] && IsSpace(s[0]) then TrimStart(s[1..]) else s
  }

  function TrimEnd(s: string): string {
    if s != [] && IsSpace(s[|s| - 1]) then TrimEnd(s[..|s| - 1]) else s
  }

  function StartsWith(s: string, c: char): bool {
    s != [] && s[0] == c
  }

  /** The length of the longest prefix made of digits and minus signs. */
  function NumberLength(s: string): (n: nat)
    ensures n <= |s|
  {
    if s == [] || !InNumber(s[0]) then 0 else 1 + NumberLength(s[1..])
  }

  predicate AllDigits(s: string) {
    forall i :: 0 <= i < |s| ==> IsDigit(s[i])
  }

  function DecimalValue(s: string): nat
    requires AllDigits(s)
  {
    if s == [] then 0 else 10 * DecimalValue(s[..|s| - 1]) + (s[|s| - 1] as int - '0' as int)
  }

  /** Integer parsing: an optional sign, at least one digit, and a value that fits 32 bits. */
  function ParseI32(s: string): Option<int> {
    var negative := StartsWith(s, '-');
    var digits := if negative then s[1..] else s;
    if digits == [] || !AllDigits(digits) then None
    else
      var v: int := if negative then 0 - DecimalValue(digits) else DecimalValue(digits);
      if -0x8000_0000 <= v < 0x8000_0000 then Some(v) else None
  }

  // ---- Parser ----

  function ParseOp(s: string): (r: Option<(Op, nat)>)
    ensures r.Some? ==> r.value.1 <= |s|
  {
    if |s| >= 2 && s[0] == '!' && s[1] == '=' then Some((NotEq, 2))
    else if |s| >= 2 && s[0] == '<' && s[1] == '=' then Some((LtEq, 2))
    else if |s| >= 2 && s[0] == '>' && s[1] == '=' then Some((GtEq, 2))
    else if StartsWith(s, '=') then Some((Eq, 1))
    else if StartsWith(s, '<') then Some((Lt, 1))
    else if StartsWith(s, '>') then Some((Gt, 1))
    else None
  }

  function ParseAtom(text: string): (r: Option<Match>)
    ensures r.Some? ==> |r.value.rest| < |text|
  {
    var s := TrimStart(text);
    if |s| < 3 then None
    else
      match ParseOp(s[2..])
      case None => None
      case Some((op, opLen)) =>
        var valueText := s[2 + opLen..];
        var end := NumberLength(valueText);
        if end == 0 then None
        else
          match ParseI32(valueText[..end])
          case None => None
          case Some(value) => Some(Match(Atom(s[..2], op, value), valueText[end..]))
  }

  function ParseFactor(text: string): (r: Option<Match>)
    ensures r.Some? ==> |r.value.rest| < |text|
    decreases |text|, 1
  {
    var s := TrimStart(text);
    if StartsWith(s, '(') then
      match ParseGroup(s[1..])
      case None => None
      case Some(m) =>
        var rest := TrimStart(m.rest);
        if StartsWith(rest, ')') then Some(Match(m.node, rest[1..])) else None
    else ParseAtom(s)
  }

  /** The loop of a term: more factors joined by "&". */
  function TermTail(left: Node, text: string): (r: Option<Match>)
    ensures r.Some? ==> |r.value.rest| <= |text|
    decreases |text|, 2
  {
    var rest := TrimStart(text);
    if StartsWith(rest, '&') then
      match ParseFactor(rest[1..])
      case None => None
      case Some(m) => TermTail(And(left, m.node), m.rest)
    else Some(Match(left, rest))
  }

  function ParseTerm(text: string): (r: Option<Match>)
    ensures r.Some? ==> |r.value.rest| < |text|
    decreases |text|, 3
  {
    match ParseFactor(text)
    case None => None
    case Some(m) => TermTail(m.node, m.rest)
  }

  /** The loop of a group: more terms joined by "|". */
  function GroupTail(left: Node, text: string): (r: Option<Match>)
    ensures r.Some? ==> |r.value.rest| <= |text|
    decreases |text|, 4
  {
    var rest := TrimStart(text);
    if StartsWith(rest, '|') then
      match ParseTerm(rest[1..])
      case None => None
      case Some(m) => GroupTail(Or(left, m.node), m.rest)
    else Some(Match(left, rest))
  }

  function ParseGroup(text: string): (r: Option<Match>)
    ensures r.Some? ==> |r.value.rest| < |text|
    decreases |text|, 5
  {
    match ParseTerm(text)
    case None => None
    case Some(m) => GroupTail(m.node, m.rest)
  }

  // ---- Evaluator ----

  datatype Context = Context(level: int, breedId: int, sex: int, completedQuestIds: seq<int>, activeQuestIds: seq<int>)

  function Compare(actual: int, op: Op, expected: int): bool {
    match op
    case Eq => actual == expected
    case NotEq => actual != expected
    case Lt => actual < expected
    case Gt => actual > expected
    case LtEq => actual <= expected
    case GtEq => actual >= expected
  }

  /** Unknown kinds, and those that a private server always grants, hold. */
  function EvalAtom(kind: string, op: Op, value: int, ctx: Context): bool {
    if kind == "PL" then Compare(ctx.level, op, value)
    else if kind == "Ps" then Compare(ctx.breedId, op, value)
    else if kind == "PS" then Compare(ctx.sex, op, value)
    else if kind == "Qf" then if op == NotEq then value !in ctx.completedQuestIds else value in ctx.completedQuestIds
    else if kind == "Qa" then if op == NotEq then value !in ctx.activeQuestIds else value in ctx.activeQuestIds
    else true
  }

  function EvalNode(node: Node, ctx: Context): bool {
    match node
    case Atom(kind, op, value) => EvalAtom(kind, op, value, ctx)
    case And(left, right) => EvalNode(left, ctx) && EvalNode(right, ctx)
    case Or(left, right) => EvalNode(left, ctx) || EvalNode(right, ctx)
  }

  /** Empty and unparseable criteria pass; text behind the parsed part is ignored. */
  function Evaluate(criterion: string, ctx: Context): bool {
    var s := TrimEnd(TrimStart(criterion));
    if s == [] then true
    else match ParseGroup(s)
      case None => true
      case Some(m) => EvalNode(m.node, ctx)
  }

  // ---- Printer: parentheses only where precedence or left nesting needs them ----

  function PrintOp(op: Op): string {
    match op
    case Eq => "="
    case NotEq => "!="
    case Lt => "<"
    case Gt => ">"
    case LtEq => "<="
    case GtEq => ">="
  }

  function PrintNat(n: nat): (s: string)
    ensures s != [] && AllDigits(s)
  {
    if n < 10 then [('0' as int + n) as char] else PrintNat(n / 10) + [('0' as int + n % 10) as char]
  }

  function PrintInt(n: int): string {
    if n < 0 then "-" + PrintNat(-n) else PrintNat(n)
  }

  /** Where a node stands: in a group, in a term, or as a factor. */
  datatype Place = InGroup | InTerm | AsFactor

  function Print(n: Node, place: Place): string
    decreases n, if place.InGroup? then 0 else if place.InTerm? then 1 else 2
  {
    match n
    case Atom(kind, op, value) => kind + PrintOp(op) + PrintInt(value)
    case And(left, right) =>
      if place.AsFactor? then "(" + Print(n, InGroup) + ")"
      else Print(left, InTerm) + "&" + Print(right, AsFactor)
    case Or(left, right) =>
      if place.InGroup? then Print(left, InGroup) + "|" + Print(right, InTerm)
      else "(" + Print(n, InGroup) + ")"
  }

  /** Atoms with a two-character kind that cannot be mistaken for space or a parenthesis, and a 32-bit value. */
  predicate Printable(n: Node) {
    match n
    case Atom(kind, _, value) =>
      |kind| == 2 && !IsSpace(kind[0]) && kind[0] != '(' && -0x8000_0000 <= value < 0x8000_0000
    case And(left, right) => Printable(left) && Printable(right)
    case Or(left, right) => Printable(left) && Printable(right)
  }

  // ---- Numbers and atoms come back ----

  lemma {:induction false} DecimalBack(n: nat)
    ensures DecimalValue(PrintNat(n)) == n
  {
    if n >= 10 {
      DecimalBack(n / 10);
      var s := PrintNat(n);
      assert s[..|s| - 1] == PrintNat(n / 10);
    } else {
      assert PrintNat(n)[..0] == [];
    }
  }

  lemma IntBack(n: int)
    requires -0x8000_0000 <= n < 0x8000_0000
    ensures ParseI32(PrintInt(n)) == Some(n)
    ensures PrintInt(n) != [] && forall i :: 0 <= i < |PrintInt(n)| ==> InNumber(PrintInt(n)[i])
  {
    hide DecimalValue, PrintNat;
    if n < 0 {
      DecimalBack(-n);
      assert PrintInt(n)[1..] == PrintNat(-n);
    } else {
      DecimalBack(n);
      assert IsDigit(PrintNat(n)[0]);
    }
  }

  /** Text that cannot extend a number. */
  predicate EndsNumber(rest: string) {
    rest == [] || !InNumber(rest[0])
  }

  lemma {:induction false} NumberEnds(number: string, rest: string)
    requires forall i :: 0 <= i < |number| ==> InNumber(number[i])
    requires EndsNumber(rest)
    ensures NumberLength(number + rest) == |number|
  {
    hide InNumber;
    if number != [] {
      assert (number + rest)[1..] == number[1..] + rest;
      NumberEnds(number[1..], rest);
    }
  }

  lemma OpBack(op: Op, number: string)
    requires number != [] && InNumber(number[0])
    ensures ParseOp(PrintOp(op) + number) == Some((op, |PrintOp(op)|))
  {
  }

  lemma TrimNothing(s: string)
    requires s == [] || !IsSpace(s[0])
    ensures TrimStart(s) == s
  {
  }

  lemma AtomBack(n: Node, rest: string)
    requires n.Atom? && Printable(n) && EndsNumber(rest)
    ensures ParseAtom(Print(n, AsFactor) + rest) == Some(Match(n, rest))
  {
    hide ParseOp, ParseI32, NumberLength, PrintInt, PrintOp, TrimStart, EndsNumber, InNumber;
    var Atom(kind, op, value) := n;
    var number := PrintInt(value);
    var s := Print(n, AsFactor) + rest;
    IntBack(value);
    NumberEnds(number, rest);
    TrimNothing(s);
    assert s[..2] == kind;
    assert s[2..] == PrintOp(op) + (number + rest);
    OpBack(op, number + rest);
    OpLength(op);
    assert s[2 + |PrintOp(op)|..] == number + rest;
    assert (number + rest)[..|number|] == number && (number + rest)[|number|..] == rest;
  }

  lemma OpLength(op: Op)
    ensures 1 <= |PrintOp(op)| <= 2
  {
  }

  // ---- The grammar comes back ----

  function Rank(n: Node, parser: Place): nat {
    match n
    case Atom(_, _, _) => if parser.InGroup? then 2 else if parser.InTerm? then 1 else 0
    case And(_, _) => if parser.AsFactor? then 2 else if parser.InGroup? then 1 else 0
    case Or(_, _) => if parser.InTerm? then 2 else if parser.AsFactor? then 1 else 0
  }

  lemma PrintStarts(n: Node, place: Place)
    requires Printable(n)
    ensures Print(n, place) != [] && !IsSpace(Print(n, place)[0])
    ensures n.Atom? ==> Print(n, place)[0] != '('
    decreases n, if place.InGroup? then 0 else 1
  {
    hide IsSpace, PrintInt, PrintOp;
    match n
    case Atom(kind, op, value) =>
      assert Print(n, place)[0] == kind[0];
    case And(left, _) =>
      if place.AsFactor? {
        assert Print(n, place)[0] == '(' && !IsSpace('(') by { ParenNoSpace(); }
      } else {
        PrintStarts(left, InTerm);
      }
    case Or(left, _) =>
      if place.InGroup? {
        PrintStarts(left, InGroup);
      } else {
        assert Print(n, place)[0] == '(' && !IsSpace('(') by { ParenNoSpace(); }
      }
  }

  lemma ParenNoSpace()
    ensures !IsSpace('(') && !IsSpace(')') && !IsSpace('&') && !IsSpace('|')
  {
  }

  lemma {:induction false} FactorBack(n: Node, rest: string)
    requires Printable(n) && EndsNumber(rest)
    ensures ParseFactor(Print(n, AsFactor) + rest) == Some(Match(n, rest))
    decreases n, Rank(n, AsFactor)
  {
    hide TrimStart, IsSpace, ParseAtom, EndsNumber;
    var s := Print(n, AsFactor) + rest;
    PrintStarts(n, AsFactor);
    TrimNothing(s);
    if n.Atom? {
      AtomBack(n, rest);
    } else {
      var inner := Print(n, InGroup);
      assert s[1..] == inner + (")" + rest);
      CloseEnds(rest);
      TrimNothing(")" + rest);
      GroupBack(n, ")" + rest);
      assert (")" + rest)[1..] == rest;
    }
  }

  lemma CloseEnds(rest: string)
    ensures EndsNumber(")" + rest) && EndsNumber("&" + rest) && EndsNumber("|" + rest)
    ensures !IsSpace((")" + rest)[0]) && !IsSpace(("&" + rest)[0]) && !IsSpace(("|" + rest)[0])
  {
  }

  /** After a printed term the parser continues with the rest as the tail of that term. */
  lemma {:induction false} TermBack(n: Node, rest: string)
    requires Printable(n) && EndsNumber(rest)
    ensures ParseTerm(Print(n, InTerm) + rest) == TermTail(n, rest)
    decreases n, Rank(n, InTerm)
  {
    hide TrimStart, IsSpace, ParseFactor, EndsNumber, TermTail, ParseTerm;
    match n
    case And(left, right) =>
      var tail := Print(right, AsFactor) + rest;
      assert Print(n, InTerm) + rest == Print(left, InTerm) + ("&" + tail);
      CloseEnds(tail);
      TermBack(left, "&" + tail);
      FactorBack(right, rest);
      TermTailStep(left, tail, right, rest);
    case _ =>
      assert Print(n, InTerm) == Print(n, AsFactor);
      FactorBack(n, rest);
      TermStart(Print(n, AsFactor) + rest, n, rest);
  }

  lemma TermStart(text: string, n: Node, rest: string)
    requires ParseFactor(text) == Some(Match(n, rest))
    ensures ParseTerm(text) == TermTail(n, rest)
  {
    hide ParseFactor, TermTail;
  }

  lemma TermTailStep(left: Node, tail: string, right: Node, rest: string)
    requires ParseFactor(tail) == Some(Match(right, rest))
    ensures TermTail(left, "&" + tail) == TermTail(And(left, right), rest)
  {
    hide ParseFactor, TrimStart, IsSpace;
    CloseEnds(tail);
    TrimNothing("&" + tail);
    assert ("&" + tail)[1..] == tail;
  }

  /** A group is its first term and the loop; a term that no "&" follows is done. */
  lemma GroupStart(text: string, n: Node, rest: string)
    requires ParseTerm(text) == TermTail(n, rest) && !StartsWith(TrimStart(rest), '&')
    ensures ParseGroup(text) == GroupTail(n, rest)
  {
    hide ParseTerm, TrimStart;
    TrimTwice(rest);
  }

  lemma GroupPrint(n: Node, rest: string)
    ensures match n
            case Or(left, right) => Print(n, InGroup) + rest ==
                    Print(left, InGroup) + ("|" + (Print(right, InTerm) + rest))
            case _ => Print(n, InGroup) == Print(n, InTerm)
  {
  }

  lemma GroupTailStep(left: Node, tail: string, right: Node, rest: string)
    requires ParseTerm(tail) == TermTail(right, rest) && !StartsWith(TrimStart(rest), '&')
    ensures GroupTail(left, "|" + tail) == GroupTail(Or(left, right), rest)
  {
    hide ParseTerm, TrimStart, IsSpace;
    CloseEnds(tail);
    TrimNothing("|" + tail);
    assert ("|" + tail)[1..] == tail;
    TrimTwice(rest);
  }

  lemma TrimTwice(s: string)
    ensures TrimStart(TrimStart(s)) == TrimStart(s)
  {
    TrimNothing(TrimStart(s));
  }

  /** After a printed group the parser continues with the rest as the tail of that group, unless a "&" follows. */
  lemma {:induction false} GroupBack(n: Node, rest: string)
    requires Printable(n) && EndsNumber(rest) && !StartsWith(TrimStart(rest), '&')
    ensures ParseGroup(Print(n, InGroup) + rest) == GroupTail(n, rest)
    decreases n, Rank(n, InGroup)
  {
    hide TrimStart, IsSpace, EndsNumber, ParseTerm, ParseGroup, GroupTail, TermTail, Print;
    GroupPrint(n, rest);
    match n
    case Or(left, right) =>
      var tail := Print(right, InTerm) + rest;
      CloseEnds(tail);
      TrimNothing("|" + tail);
      GroupBack(left, "|" + tail);
      TermBack(right, rest);
      GroupTailStep(left, tail, right, rest);
    case _ =>
      TermBack(n, rest);
      GroupStart(Print(n, InTerm) + rest, n, rest);
  }

  /** Main result: parsing the print of a tree gives back exactly that tree and leaves nothing. */
  lemma PrintThenParse(n: Node)
    requires Printable(n)
    ensures ParseGroup(Print(n, InGroup)) == Some(Match(n, ""))
  {
    hide ParseGroup, Print, Printable;
    assert Print(n, InGroup) + "" == Print(n, InGroup);
    GroupBack(n, "");
  }

  lemma PrintEnds(n: Node, place: Place)
    requires Printable(n)
    ensures Print(n, place) != [] && !IsSpace(Print(n, place)[|Print(n, place)| - 1])
    decreases n, if place.InGroup? then 0 else if place.InTerm? then 1 else 2
  {
    hide IsSpace, PrintOp, PrintInt;
    match n
    case Atom(_, _, value) => NumberEndsInDigit(value);
    case And(_, right) =>
      if place.AsFactor? {
        ParenNoSpace();
      } else {
        PrintEnds(right, AsFactor);
      }
    case Or(_, right) =>
      if place.InGroup? {
        PrintEnds(right, InTerm);
      } else {
        ParenNoSpace();
      }
  }

  lemma NumberEndsInDigit(n: int)
    ensures PrintInt(n) != [] && !IsSpace(PrintInt(n)[|PrintInt(n)| - 1])
  {
    var digits := if n < 0 then PrintNat(-n) else PrintNat(n);
    assert IsDigit(digits[|digits| - 1]);
    assert PrintInt(n)[|PrintInt(n)| - 1] == digits[|digits| - 1];
  }

  lemma TrimEndNothing(s: string)
    requires s == [] || !IsSpace(s[|s| - 1])
    ensures TrimEnd(s) == s
  {
  }

  /** Evaluating the text of a tree is evaluating the tree. */
  lemma EvaluatePrinted(n: Node, ctx: Context)
    requires Printable(n)
    ensures Evaluate(Print(n, InGroup), ctx) == EvalNode(n, ctx)
  {
    hide ParseGroup, Print, Printable, EvalNode, TrimStart, TrimEnd, IsSpace;
    PrintStarts(n, InGroup);
    PrintEnds(n, InGroup);
    TrimNothing(Print(n, InGroup));
    TrimEndNothing(Print(n, InGroup));
    PrintThenParse(n);
  }

  // ---- Whatever is parsed can be printed ----

  lemma ParseI32InRange(s: string)
    ensures ParseI32(s).Some? ==> -0x8000_0000 <= ParseI32(s).value < 0x8000_0000
  {
    hide DecimalValue;
  }

  lemma AtomPrintable(text: string)
    requires text != [] && !IsSpace(text[0]) && text[0] != '('
    ensures ParseAtom(text).Some? ==> Printable(ParseAtom(text).value.node)
  {
    hide ParseOp, ParseI32, NumberLength, IsSpace, TrimStart;
    TrimNothing(text);
    if |text| >= 3 {
      match ParseOp(text[2..])
      case None =>
      case Some((op, opLen)) =>
        var valueText := text[2 + opLen..];
        ParseI32InRange(valueText[..NumberLength(valueText)]);
    }
  }

  lemma EmptyHasNoAtom()
    ensures ParseAtom([]).None?
  {
  }

  lemma {:induction false} FactorPrintable(text: string)
    ensures ParseFactor(text).Some? ==> Printable(ParseFactor(text).value.node)
    decreases |text|, 1
  {
    hide Printable, ParseAtom, IsSpace;
    var s := TrimStart(text);
    if StartsWith(s, '(') {
      GroupPrintable(s[1..]);
    } else if s == [] {
      EmptyHasNoAtom();
    } else {
      AtomPrintable(s);
    }
  }

  lemma {:induction false} TermTailPrintable(left: Node, text: string)
    requires Printable(left)
    ensures TermTail(left, text).Some? ==> Printable(TermTail(left, text).value.node)
    decreases |text|, 2
  {
    hide ParseFactor, TrimStart;
    var rest := TrimStart(text);
    if StartsWith(rest, '&') {
      FactorPrintable(rest[1..]);
      match ParseFactor(rest[1..])
      case None =>
      case Some(m) => TermTailPrintable(And(left, m.node), m.rest);
    }
  }

  lemma {:induction false} TermPrintable(text: string)
    ensures ParseTerm(text).Some? ==> Printable(ParseTerm(text).value.node)
    decreases |text|, 3
  {
    hide ParseFactor, TermTail, Printable;
    FactorPrintable(text);
    match ParseFactor(text)
    case None =>
    case Some(m) => TermTailPrintable(m.node, m.rest);
  }

  lemma {:induction false} GroupTailPrintable(left: Node, text: string)
    requires Printable(left)
    ensures GroupTail(left, text).Some? ==> Printable(GroupTail(left, text).value.node)
    decreases |text|, 4
  {
    hide ParseTerm, TrimStart;
    var rest := TrimStart(text);
    if StartsWith(rest, '|') {
      TermPrintable(rest[1..]);
      match ParseTerm(rest[1..])
      case None =>
      case Some(m) => GroupTailPrintable(Or(left, m.node), m.rest);
    }
  }

  lemma {:induction false} GroupPrintable(text: string)
    ensures ParseGroup(text).Some? ==> Printable(ParseGroup(text).value.node)
    decreases |text|, 5
  {
    hide ParseTerm, GroupTail, Printable;
    TermPrintable(text);
    match ParseTerm(text)
    case None =>
    case Some(m) => GroupTailPrintable(m.node, m.rest);
  }

  /** Every text that parses means the same as the canonical print of its tree. */
  lemma CanonicalText(criterion: string, ctx: Context)
    ensures var s := TrimEnd(TrimStart(criterion));
            s != [] && ParseGroup(s).Some? ==>
              && ParseGroup(Print(ParseGroup(s).value.node, InGroup)) == Some(Match(ParseGroup(s).value.node, ""))
              && Evaluate(Print(ParseGroup(s).value.node, InGroup), ctx) == Evaluate(criterion, ctx)
  {
    hide ParseGroup, Print, Printable, EvalNode, TrimStart, TrimEnd;
    var s := TrimEnd(TrimStart(criterion));
    GroupPrintable(s);
    if s != [] && ParseGroup(s).Some? {
      PrintThenParse(ParseGroup(s).value.node);
      EvaluatePrinted(ParseGroup(s).value.node, ctx);
    }
  }

  // ---- The parser's loops ----

  method ParseFactorText(text: string) returns (r: Option<Match>)
    ensures r == ParseFactor(text)
    decreases |text|, 1
  {
    hide ParseAtom, IsSpace;
    var s := TrimStart(text);
    if StartsWith(s, '(') {
      var inner := ParseGroupText(s[1..]);
      if inner.None? {
        return None;
      }
      var rest := TrimStart(inner.value.rest);
      return if StartsWith(rest, ')') then Some(Match(inner.value.node, rest[1..])) else None;
    }
    return ParseAtom(s);
  }

  method ParseTermText(text: string) returns (r: Option<Match>)
    ensures r == ParseTerm(text)
    decreases |text|, 3
  {
    hide ParseFactor, IsSpace;
    var first := ParseFactorText(text);
    if first.None? {
      return None;
    }
    var left, rest := first.value.node, first.value.rest;
    while true
      invariant ParseTerm(text) == TermTail(left, rest) && |rest| < |text|
      decreases |rest|
    {
      TrimTwice(rest);
      rest := TrimStart(rest);
      if StartsWith(rest, '&') {
        var right := ParseFactorText(rest[1..]);
        if right.None? {
          return None;
        }
        left := And(left, right.value.node);
        rest := right.value.rest;
      } else {
        break;
      }
    }
    return Some(Match(left, rest));
  }

  method ParseGroupText(text: string) returns (r: Option<Match>)
    ensures r == ParseGroup(text)
    decreases |text|, 5
  {
    hide ParseTerm, IsSpace;
    var first := ParseTermText(text);
    if first.None? {
      return None;
    }
    var left, rest := first.value.node, first.value.rest;
    while true
      invariant ParseGroup(text) == GroupTail(left, rest) && |rest| < |text|
      decreases |rest|
    {
      TrimTwice(rest);
      rest := TrimStart(rest);
      if StartsWith(rest, '|') {
        var right := ParseTermText(rest[1..]);
        if right.None? {
          return None;
        }
        left := Or(left, right.value.node);
        rest := right.value.rest;
      } else {
        break;
      }
    }
    return Some(Match(left, rest));
  }

  method EvaluateText(criterion: string, ctx: Context) returns (holds: bool)
    ensures holds == Evaluate(criterion, ctx)
  {
    hide ParseGroup;
    var s := TrimEnd(TrimStart(criterion));
    if s == [] {
      return true;
    }
    var parsed := ParseGroupText(s);
    match parsed
    case None => return true;
    case Some(m) => return EvalNode(m.node, ctx);
  }
}
