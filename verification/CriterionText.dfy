/** What criterion texts mean, without the parser's trees: connectives, comparisons, memberships, and what passes. */
module CriterionText {
  import opened Common
  import opened Criterion

  predicate Is32(n: int) {
    -0x8000_0000 <= n < 0x8000_0000
  }

  // ---- Connectives ----

  /** Both sides of "&" must hold. */
  lemma EvaluateAnd(a: Node, b: Node, ctx: Context)
    requires Printable(a) && Printable(b)
    ensures Evaluate(Print(a, InTerm) + "&" + Print(b, AsFactor), ctx) <==>
            Evaluate(Print(a, InGroup), ctx) && Evaluate(Print(b, InGroup), ctx)
    ensures Print(And(a, b), InGroup) == Print(a, InTerm) + "&" + Print(b, AsFactor)
  {
    hide Evaluate;
    EvaluatePrinted(And(a, b), ctx);
    EvaluatePrinted(a, ctx);
    EvaluatePrinted(b, ctx);
  }

  /** One side of "|" must hold. */
  lemma EvaluateOr(a: Node, b: Node, ctx: Context)
    requires Printable(a) && Printable(b)
    ensures Evaluate(Print(a, InGroup) + "|" + Print(b, InTerm), ctx) <==>
            Evaluate(Print(a, InGroup), ctx) || Evaluate(Print(b, InGroup), ctx)
    ensures Print(Or(a, b), InGroup) == Print(a, InGroup) + "|" + Print(b, InTerm)
  {
    hide Evaluate;
    EvaluatePrinted(Or(a, b), ctx);
    EvaluatePrinted(a, ctx);
    EvaluatePrinted(b, ctx);
  }

  // ---- Atoms ----

  /** The number compared is the one printed, and one beyond 32 bits makes the text unparseable: it passes. */
  lemma ParseNumber(n: int, rest: string)
    requires EndsNumber(rest)
    ensures var text := PrintInt(n) + rest;
            && NumberLength(text) == |PrintInt(n)| > 0
            && text[..|PrintInt(n)|] == PrintInt(n) && text[|PrintInt(n)|..] == rest
            && ParseI32(PrintInt(n)) == if Is32(n) then Some(n) else None
  {
    hide DecimalValue, PrintNat, NumberLength;
    if n < 0 {
      DecimalBack(-n);
      assert PrintInt(n)[1..] == PrintNat(-n);
    } else {
      DecimalBack(n);
      assert IsDigit(PrintNat(n)[0]);
    }
    NumberEnds(PrintInt(n), rest);
    var text := PrintInt(n) + rest;
    assert text[..|PrintInt(n)|] == PrintInt(n);
  }

  /** The text of an atom is that of one tree, or unparseable if its number does not fit. */
  lemma EvaluateAtom(kind: string, op: Op, n: int, ctx: Context)
    requires |kind| == 2 && !IsSpace(kind[0]) && kind[0] != '('
    ensures Evaluate(kind + PrintOp(op) + PrintInt(n), ctx) <==> (Is32(n) ==> EvalAtom(kind, op, n, ctx))
  {
    hide Evaluate, EvalAtom, PrintInt, IsSpace, Print, PrintOp;
    if Is32(n) {
      EvaluatePrinted(Atom(kind, op, n), ctx);
      PrintAtom(kind, op, n);
    } else {
      BigNumberFails(kind, op, n);
      NoTreePasses(kind + PrintOp(op) + PrintInt(n), ctx);
    }
  }

  lemma PrintAtom(kind: string, op: Op, n: int)
    ensures Print(Atom(kind, op, n), InGroup) == kind + PrintOp(op) + PrintInt(n)
  {
  }

  lemma BigNumberFails(kind: string, op: Op, n: int)
    requires |kind| == 2 && !IsSpace(kind[0]) && kind[0] != '(' && !Is32(n)
    ensures var s := kind + PrintOp(op) + PrintInt(n);
            s != [] && !IsSpace(s[0]) && !IsSpace(s[|s| - 1]) && ParseGroup(s) == None
  {
    hide ParseOp, ParseI32, NumberLength, PrintInt, PrintOp, TrimStart, IsSpace;
    var s := kind + PrintOp(op) + PrintInt(n);
    NumberEndsInDigit(n);
    ParseNumber(n, []);
    NumberStarts(n);
    TrimNothing(s);
    assert s[..2] == kind;
    assert s[2..] == PrintOp(op) + PrintInt(n);
    OpBack(op, PrintInt(n));
    OpLength(op);
    assert s[2 + |PrintOp(op)|..] == PrintInt(n);
    assert PrintInt(n) + [] == PrintInt(n);
    assert ParseAtom(s) == None;
    assert ParseFactor(s) == None;
  }

  lemma NumberStarts(n: int)
    ensures PrintInt(n) != [] && InNumber(PrintInt(n)[0])
  {
  }

  /** Trimmed text without a tree passes. */
  lemma NoTreePasses(s: string, ctx: Context)
    requires s != [] && !IsSpace(s[0]) && !IsSpace(s[|s| - 1]) && ParseGroup(s) == None
    ensures Evaluate(s, ctx)
  {
    hide ParseGroup, IsSpace, TrimStart, TrimEnd, EvalNode;
    TrimNothing(s);
    TrimEndNothing(s);
  }

  /** "PL" compares the level. */
  lemma EvaluateLevel(n: int, ctx: Context)
    ensures Evaluate("PL" + "=" + PrintInt(n), ctx) <==> (Is32(n) ==> ctx.level == n)
    ensures Evaluate("PL" + "!=" + PrintInt(n), ctx) <==> (Is32(n) ==> ctx.level != n)
    ensures Evaluate("PL" + "<" + PrintInt(n), ctx) <==> (Is32(n) ==> ctx.level < n)
    ensures Evaluate("PL" + ">" + PrintInt(n), ctx) <==> (Is32(n) ==> ctx.level > n)
    ensures Evaluate("PL" + "<=" + PrintInt(n), ctx) <==> (Is32(n) ==> ctx.level <= n)
    ensures Evaluate("PL" + ">=" + PrintInt(n), ctx) <==> (Is32(n) ==> ctx.level >= n)
  {
    hide Evaluate, PrintInt;
    EvaluateOps("PL", n, ctx);
  }

  /** "Ps" compares the breed. */
  lemma EvaluateBreed(n: int, ctx: Context)
    ensures Evaluate("Ps" + "=" + PrintInt(n), ctx) <==> (Is32(n) ==> ctx.breedId == n)
    ensures Evaluate("Ps" + "!=" + PrintInt(n), ctx) <==> (Is32(n) ==> ctx.breedId != n)
    ensures Evaluate("Ps" + "<" + PrintInt(n), ctx) <==> (Is32(n) ==> ctx.breedId < n)
    ensures Evaluate("Ps" + ">" + PrintInt(n), ctx) <==> (Is32(n) ==> ctx.breedId > n)
    ensures Evaluate("Ps" + "<=" + PrintInt(n), ctx) <==> (Is32(n) ==> ctx.breedId <= n)
    ensures Evaluate("Ps" + ">=" + PrintInt(n), ctx) <==> (Is32(n) ==> ctx.breedId >= n)
  {
    hide Evaluate, PrintInt;
    EvaluateOps("Ps", n, ctx);
  }

  /** "PS" compares the sex. */
  lemma EvaluateSex(n: int, ctx: Context)
    ensures Evaluate("PS" + "=" + PrintInt(n), ctx) <==> (Is32(n) ==> ctx.sex == n)
    ensures Evaluate("PS" + "!=" + PrintInt(n), ctx) <==> (Is32(n) ==> ctx.sex != n)
    ensures Evaluate("PS" + "<" + PrintInt(n), ctx) <==> (Is32(n) ==> ctx.sex < n)
    ensures Evaluate("PS" + ">" + PrintInt(n), ctx) <==> (Is32(n) ==> ctx.sex > n)
    ensures Evaluate("PS" + "<=" + PrintInt(n), ctx) <==> (Is32(n) ==> ctx.sex <= n)
    ensures Evaluate("PS" + ">=" + PrintInt(n), ctx) <==> (Is32(n) ==> ctx.sex >= n)
  {
    hide Evaluate, PrintInt;
    EvaluateOps("PS", n, ctx);
  }

  /** "Qf" asks whether a quest is finished, "Qa" whether it is active; only "!=" asks for the contrary. */
  lemma EvaluateQuest(n: int, ctx: Context)
    ensures Evaluate("Qf" + "=" + PrintInt(n), ctx) <==> (Is32(n) ==> n in ctx.completedQuestIds)
    ensures Evaluate("Qf" + "!=" + PrintInt(n), ctx) <==> (Is32(n) ==> n !in ctx.completedQuestIds)
    ensures Evaluate("Qa" + "=" + PrintInt(n), ctx) <==> (Is32(n) ==> n in ctx.activeQuestIds)
    ensures Evaluate("Qa" + "!=" + PrintInt(n), ctx) <==> (Is32(n) ==> n !in ctx.activeQuestIds)
    ensures forall op :: op in ["<", ">", "<=", ">="] ==>
              && (Evaluate("Qf" + op + PrintInt(n), ctx) <==> (Is32(n) ==> n in ctx.completedQuestIds))
              && (Evaluate("Qa" + op + PrintInt(n), ctx) <==> (Is32(n) ==> n in ctx.activeQuestIds))
  {
    hide Evaluate, PrintInt;
    EvaluateOps("Qf", n, ctx);
    EvaluateOps("Qa", n, ctx);
  }

  /** Any other kind passes, whatever the operator and the number. */
  lemma EvaluateOther(kind: string, n: int, ctx: Context)
    requires |kind| == 2 && !Blank(kind[0]) && kind[0] != '('
    requires kind !in ["PL", "Ps", "PS", "Qf", "Qa"]
    ensures forall op :: op in ["=", "!=", "<", ">", "<=", ">="] ==> Evaluate(kind + op + PrintInt(n), ctx)
  {
    hide Evaluate, PrintInt, IsSpace, Blank;
    BlankIsSpace(kind[0]);
    EvaluateOps(kind, n, ctx);
  }

  lemma EvaluateOps(kind: string, n: int, ctx: Context)
    requires |kind| == 2 && !IsSpace(kind[0]) && kind[0] != '('
    ensures Evaluate(kind + "=" + PrintInt(n), ctx) <==> (Is32(n) ==> EvalAtom(kind, Eq, n, ctx))
    ensures Evaluate(kind + "!=" + PrintInt(n), ctx) <==> (Is32(n) ==> EvalAtom(kind, NotEq, n, ctx))
    ensures Evaluate(kind + "<" + PrintInt(n), ctx) <==> (Is32(n) ==> EvalAtom(kind, Lt, n, ctx))
    ensures Evaluate(kind + ">" + PrintInt(n), ctx) <==> (Is32(n) ==> EvalAtom(kind, Gt, n, ctx))
    ensures Evaluate(kind + "<=" + PrintInt(n), ctx) <==> (Is32(n) ==> EvalAtom(kind, LtEq, n, ctx))
    ensures Evaluate(kind + ">=" + PrintInt(n), ctx) <==> (Is32(n) ==> EvalAtom(kind, GtEq, n, ctx))
  {
    hide Evaluate, PrintInt, EvalAtom, IsSpace;
    EvaluateAtom(kind, Eq, n, ctx);
    EvaluateAtom(kind, NotEq, n, ctx);
    EvaluateAtom(kind, Lt, n, ctx);
    EvaluateAtom(kind, Gt, n, ctx);
    EvaluateAtom(kind, LtEq, n, ctx);
    EvaluateAtom(kind, GtEq, n, ctx);
  }

  // ---- Blanks ----

  /** Space, tab, line feed, vertical tab, form feed, carriage return. */
  predicate Blank(c: char) {
    c in [' ', '\t', '\n', 11 as char, 12 as char, '\r']
  }

  predicate Blanks(w: string) {
    forall i :: 0 <= i < |w| ==> Blank(w[i])
  }

  lemma BlankIsSpace(c: char)
    ensures Blank(c) <==> IsSpace(c)
  {
  }

  lemma {:induction false} TrimBlanks(w: string, s: string)
    requires Blanks(w)
    ensures TrimStart(w + s) == TrimStart(s)
  {
    hide Blank, IsSpace;
    if w == [] {
      assert w + s == s;
    } else {
      BlankIsSpace(w[0]);
      assert (w + s)[1..] == w[1..] + s;
      TrimBlanks(w[1..], s);
    }
  }

  lemma {:induction false} TrimStartOfSum(s: string, v: string)
    ensures TrimStart(s + v) == if TrimStart(s) == [] then TrimStart(v) else TrimStart(s) + v
  {
    hide IsSpace;
    if s == [] {
      assert s + v == v;
    } else {
      assert (s + v)[1..] == s[1..] + v;
      TrimStartOfSum(s[1..], v);
    }
  }

  lemma {:induction false} TrimEndBlanks(s: string, v: string)
    requires Blanks(v)
    ensures TrimEnd(s + v) == TrimEnd(s)
  {
    hide Blank, IsSpace;
    if v == [] {
      assert s + v == s;
    } else {
      BlankIsSpace(v[|v| - 1]);
      assert (s + v)[..|s + v| - 1] == s + v[..|v| - 1];
      TrimEndBlanks(s, v[..|v| - 1]);
    }
  }

  /** Blanks around any criterion change nothing. */
  lemma BlanksAround(w: string, text: string, v: string, ctx: Context)
    requires Blanks(w) && Blanks(v)
    ensures Evaluate(w + text + v, ctx) == Evaluate(text, ctx)
  {
    hide ParseGroup, EvalNode, TrimStart, TrimEnd;
    assert w + text + v == w + (text + v);
    TrimBlanks(w, text + v);
    TrimStartOfSum(text, v);
    TrimEndBlanks(TrimStart(text), v);
    TrimBlanks(v, []);
    assert v + [] == v;
    EmptyTrims();
  }

  lemma EmptyTrims()
    ensures TrimStart([]) == [] && TrimEnd([]) == []
  {
  }

  lemma BlanksEndNumber(w: string, rest: string)
    requires Blanks(w) && EndsNumber(rest)
    ensures EndsNumber(w + rest)
  {
    if w != [] {
      assert (w + rest)[0] == w[0];
    }
  }

  /** The parser skips blanks in front of a factor, an operator and a closing parenthesis. */
  lemma SpacedAnd(a: Node, w: string, v: string, b: Node)
    requires Printable(a) && Printable(b) && Blanks(w) && Blanks(v)
    ensures ParseGroup(Print(a, InTerm) + w + "&" + v + Print(b, AsFactor)) == Some(Match(And(a, b), ""))
  {
    hide Print, Printable, ParseFactor, ParseTerm, ParseGroup, TermTail, TrimStart, EndsNumber, Blank;
    var tail := v + Print(b, AsFactor);
    var text := Print(a, InTerm) + w + "&" + v + Print(b, AsFactor);
    assert text == Print(a, InTerm) + (w + ("&" + tail));
    CloseEnds(tail);
    BlanksEndNumber(w, "&" + tail);
    TermBack(a, w + ("&" + tail));
    BlankFactor(v, Print(b, AsFactor));
    NoRestEnds();
    assert Print(b, AsFactor) + "" == Print(b, AsFactor);
    FactorBack(b, "");
    TrimBlanks(w, "&" + tail);
    BlankTermTail(a, w, "&" + tail);
    TermTailStep(a, tail, b, "");
    GroupStart(text, And(a, b), "");
    Finished(And(a, b));
  }

  lemma NoRestEnds()
    ensures EndsNumber("") && !StartsWith(TrimStart(""), '&')
  {
  }

  lemma Finished(n: Node)
    ensures GroupTail(n, "") == Some(Match(n, "")) && TermTail(n, "") == Some(Match(n, ""))
  {
  }

  lemma BlankFactor(v: string, text: string)
    requires Blanks(v)
    ensures ParseFactor(v + text) == ParseFactor(text)
  {
    hide TrimStart, ParseAtom, ParseGroup, Blank;
    TrimBlanks(v, text);
  }

  lemma BlankTermTail(left: Node, w: string, text: string)
    requires Blanks(w)
    ensures TermTail(left, w + text) == TermTail(left, text)
  {
    hide TrimStart, ParseFactor, Blank;
    TrimBlanks(w, text);
  }

  lemma BlankGroupTail(left: Node, w: string, text: string)
    requires Blanks(w)
    ensures GroupTail(left, w + text) == GroupTail(left, text)
  {
    hide TrimStart, ParseTerm, Blank;
    TrimBlanks(w, text);
  }

  lemma SpacedOr(a: Node, w: string, v: string, b: Node)
    requires Printable(a) && Printable(b) && Blanks(w) && Blanks(v)
    ensures ParseGroup(Print(a, InGroup) + w + "|" + v + Print(b, InTerm)) == Some(Match(Or(a, b), ""))
  {
    hide Print, Printable, ParseFactor, ParseTerm, ParseGroup, TermTail, GroupTail, TrimStart, EndsNumber, Blank;
    var tail := v + Print(b, InTerm);
    var text := Print(a, InGroup) + w + "|" + v + Print(b, InTerm);
    assert text == Print(a, InGroup) + (w + ("|" + tail));
    CloseEnds(tail);
    BlanksEndNumber(w, "|" + tail);
    TrimBlanks(w, "|" + tail);
    TrimNothing("|" + tail);
    GroupBack(a, w + ("|" + tail));
    BlankGroupTail(a, w, "|" + tail);
    NoRestEnds();
    assert Print(b, InTerm) + "" == Print(b, InTerm);
    TermBack(b, "");
    BlankTerm(v, Print(b, InTerm));
    GroupTailStep(a, tail, b, "");
    Finished(Or(a, b));
  }

  lemma BlankTerm(v: string, text: string)
    requires Blanks(v)
    ensures ParseTerm(v + text) == ParseTerm(text)
  {
    hide ParseFactor, TermTail, Blank;
    BlankFactor(v, text);
  }

  /** Parentheses around a whole criterion, blanks inside them allowed. */
  lemma SpacedParentheses(n: Node, w: string, v: string)
    requires Printable(n) && Blanks(w) && Blanks(v)
    ensures ParseGroup("(" + w + Print(n, InGroup) + v + ")") == Some(Match(n, ""))
  {
    hide Print, Printable, ParseTerm, ParseGroup, GroupTail, TermTail, TrimStart, EndsNumber, Blank;
    var inner := Print(n, InGroup) + (v + ")");
    var text := "(" + w + Print(n, InGroup) + v + ")";
    CloseEnds("");
    TrimBlanks(v, ")");
    TrimNothing(")");
    TrimNothing(text);
    assert ")" + "" == ")";
    BlanksEndNumber(v, ")");
    GroupBack(n, v + ")");
    BlankGroupTail(n, v, ")");
    BlankGroup(w, inner);
    assert text[1..] == w + inner;
    CloseParsed(n);
    assert ParseFactor(text) == Some(Match(n, ""));
    TermStart(text, n, "");
    NoRestEnds();
    GroupStart(text, n, "");
    Finished(n);
  }

  lemma BlankGroup(w: string, text: string)
    requires Blanks(w)
    ensures ParseGroup(w + text) == ParseGroup(text)
  {
    hide ParseTerm, GroupTail, Blank;
    BlankTerm(w, text);
  }

  lemma CloseParsed(n: Node)
    ensures GroupTail(n, ")") == Some(Match(n, ")")) && TrimStart(")") == ")" && ")"[1..] == ""
  {
  }

  // ---- Texts that do not parse ----

  /** A parenthesis that is never closed, and an operator with nothing behind it, leave no tree. */
  lemma UnfinishedFails(n: Node)
    requires Printable(n)
    ensures ParseGroup("(" + Print(n, InGroup)) == None
    ensures ParseGroup(Print(n, InTerm) + "&") == None
    ensures ParseGroup(Print(n, InGroup) + "|") == None
  {
    hide Print, Printable, ParseTerm, ParseGroup, GroupTail, TermTail, TrimStart, EndsNumber;
    PrintThenParse(n);
    TrimNothing("(" + Print(n, InGroup));
    assert ("(" + Print(n, InGroup))[1..] == Print(n, InGroup);
    NoRestEnds();
    EmptyTrims();
    assert ParseFactor("(" + Print(n, InGroup)) == None;
    NoFactorNoGroup("(" + Print(n, InGroup));
    CloseEnds("");
    assert "&" + "" == "&";
    TermBack(n, "&");
    GroupBackPipe(n);
    NothingBehind(n);
    assert ParseTerm(Print(n, InTerm) + "&") == None;
  }

  lemma NoFactorNoGroup(text: string)
    requires ParseFactor(text) == None
    ensures ParseTerm(text) == None && ParseGroup(text) == None
  {
    hide ParseFactor;
  }

  lemma GroupBackPipe(n: Node)
    requires Printable(n)
    ensures ParseGroup(Print(n, InGroup) + "|") == GroupTail(n, "|")
  {
    hide Print, Printable, ParseGroup, GroupTail;
    TrimNothing("|");
    GroupBack(n, "|");
  }

  lemma NothingBehind(n: Node)
    ensures TermTail(n, "&") == None && GroupTail(n, "|") == None
    ensures forall text :: ParseTerm(text) == None ==> ParseGroup(text) == None
  {
    hide ParseTerm, TermTail;
    TermTailOfAnd(n);
    assert "|"[1..] == "" && TrimStart("|") == "|";
    EmptyHasNoAtom();
    EmptyTrims();
    assert ParseFactor("") == None;
    NoFactorNoGroup("");
  }

  lemma TermTailOfAnd(n: Node)
    ensures TermTail(n, "&") == None
  {
    assert "&"[1..] == "" && TrimStart("&") == "&";
    EmptyHasNoAtom();
    EmptyTrims();
    assert ParseFactor("") == None;
  }

  /** Two characters must be followed by one of the six operators and that by a number. */
  lemma NoComparisonFails(kind: string, rest: string)
    requires |kind| == 2 && !Blank(kind[0]) && kind[0] != '('
    requires rest == [] || (rest[0] !in ['=', '<', '>'] && !(rest[0] == '!' && |rest| >= 2 && rest[1] == '='))
    ensures ParseGroup(kind + rest) == None
  {
    hide TrimStart, IsSpace, Blank;
    BlankIsSpace(kind[0]);
    TrimNothing(kind + rest);
    assert (kind + rest)[2..] == rest;
    assert ParseFactor(kind + rest) == None;
  }

  lemma NoNumberFails(kind: string, op: Op, rest: string)
    requires |kind| == 2 && !Blank(kind[0]) && kind[0] != '('
    requires rest == [] || !('0' <= rest[0] <= '9' || rest[0] in ['-', '='])
    ensures ParseGroup(kind + PrintOp(op) + rest) == None
  {
    hide TrimStart, IsSpace, Blank, ParseOp, PrintOp;
    var s := kind + PrintOp(op) + rest;
    BlankIsSpace(kind[0]);
    TrimNothing(s);
    OpAlone(op, rest);
    OpLength(op);
    assert s[2..] == PrintOp(op) + rest && s[2 + |PrintOp(op)|..] == rest;
    assert ParseFactor(s) == None;
  }

  lemma OpAlone(op: Op, rest: string)
    requires rest == [] || rest[0] != '='
    ensures ParseOp(PrintOp(op) + rest) == Some((op, |PrintOp(op)|))
  {
  }

  /** Criteria that are blank, or whose trimmed text has no tree, pass. */
  lemma LenientPasses(criterion: string, ctx: Context)
    ensures Blanks(criterion) ==> Evaluate(criterion, ctx)
    ensures ParseGroup(TrimEnd(TrimStart(criterion))) == None ==> Evaluate(criterion, ctx)
  {
    hide ParseGroup, EvalNode, TrimStart, TrimEnd;
    if Blanks(criterion) {
      TrimBlanks(criterion, []);
      assert criterion + [] == criterion;
      EmptyTrims();
    }
  }
}
