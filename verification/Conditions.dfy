/** Condition chains of scripts/tkcond.c: their tokens, what a chain means, and what inverting one in place
  * does to that meaning. */
module Conditions {
  datatype Op = Eq | Neq | And | And1 | Or | Bang | LParen | RParen | Variable | KVariable | ShellCmd | Constant

  /** struct condition: text for a named variable, command or constant; cfg for the configuration item that a
    * KVariable points to. */
  datatype Token = Token(op: Op, text: string, cfg: nat)

  type Toks = seq<Token>

  /** What variables and shell commands stand for, and the option name of each configuration item. */
  datatype Valuation = Valuation(variable: string -> string, shell: string -> string, names: seq<string>)

  predicate IsOperand(t: Token) { t.op.Variable? || t.op.KVariable? || t.op.ShellCmd? || t.op.Constant? }

  function Operand(t: Token, v: Valuation): string {
    match t.op
    case Variable => v.variable(t.text)
    case KVariable => if t.cfg < |v.names| then v.variable(v.names[t.cfg]) else ""
    case ShellCmd => v.shell(t.text)
    case _ => t.text
  }

  predicate IsTest(a: Token, c: Token, b: Token) {
    IsOperand(a) && (c.op.Eq? || c.op.Neq?) && IsOperand(b)
  }

  function Test(a: Token, c: Token, b: Token, v: Valuation): bool {
    (Operand(a, v) == Operand(b, v)) == c.op.Eq?
  }

  // ---------------------------------------------------------------- what a token list means

  datatype Parse = Bad | Ok(value: bool, rest: Toks)

  /** Expressions of tests, && over ||, and parentheses. */
  function Expr(t: Toks, v: Valuation): (r: Parse)
    ensures r.Ok? ==> |r.rest| < |t|
    decreases |t|, 2
  {
    match Term(t, v)
    case Bad => Bad
    case Ok(a, rest) =>
      if rest != [] && rest[0].op.Or? then
        match Expr(rest[1..], v)
        case Bad => Bad
        case Ok(b, r) => Ok(a || b, r)
      else Ok(a, rest)
  }

  function Term(t: Toks, v: Valuation): (r: Parse)
    ensures r.Ok? ==> |r.rest| < |t|
    decreases |t|, 1
  {
    match Factor(t, v)
    case Bad => Bad
    case Ok(a, rest) =>
      if rest != [] && IsAnd(rest[0]) then
        match Term(rest[1..], v)
        case Bad => Bad
        case Ok(b, r) => Ok(a && b, r)
      else Ok(a, rest)
  }

  function Factor(t: Toks, v: Valuation): (r: Parse)
    ensures r.Ok? ==> |r.rest| < |t|
    decreases |t|, 0
  {
    if t == [] then Bad
    else if t[0].op.LParen? then
      match Expr(t[1..], v)
      case Bad => Bad
      case Ok(a, rest) => if rest != [] && rest[0].op.RParen? then Ok(a, rest[1..]) else Bad
    else if |t| >= 3 && IsTest(t[0], t[1], t[2]) then Ok(Test(t[0], t[1], t[2], v), t[3..])
    else Bad
  }

  predicate IsAnd(t: Token) { t.op.And? || t.op.And1? }

  /** The token list is a whole condition, of value b. */
  predicate Means(t: Toks, v: Valuation, b: bool) { Expr(t, v) == Ok(b, []) }

  /** How one parenthesis or connective extends the value of what follows it. */
  lemma ParenMeans(p: Token, q: Token, t: Toks, k: Toks, v: Valuation, b: bool)
    requires p.op.LParen? && q.op.RParen? && Expr(t, v) == Ok(b, [q] + k)
    ensures Factor([p] + t, v) == Ok(b, k)
  {
    assert ([p] + t)[1..] == t;
  }

  lemma AndMeans(t: Toks, o: Token, u: Toks, v: Valuation, a: bool, b: bool, k: Toks)
    requires IsAnd(o) && Factor(t, v) == Ok(a, [o] + u) && Term(u, v) == Ok(b, k)
    ensures Term(t, v) == Ok(a && b, k)
  {
    assert ([o] + u)[1..] == u;
  }

  lemma OrMeans(t: Toks, o: Token, u: Toks, v: Valuation, a: bool, b: bool, k: Toks)
    requires o.op.Or? && Term(t, v) == Ok(a, [o] + u) && Expr(u, v) == Ok(b, k)
    ensures Expr(t, v) == Ok(a || b, k)
  {
    assert ([o] + u)[1..] == u;
  }

  lemma TestMeans(a: Token, c: Token, b: Token, k: Toks, v: Valuation)
    requires IsTest(a, c, b)
    ensures Factor([a, c, b] + k, v) == Ok(Test(a, c, b, v), k)
  {
    var t := [a, c, b] + k;
    assert t[0] == a && t[1] == c && t[2] == b && t[3..] == k;
  }

  // ---------------------------------------------------------------- chains

  /** A condition of config.in: tests joined by connectives. */
  datatype Chain = Last(a: Token, c: Token, b: Token) | Link(a: Token, c: Token, b: Token, o: Token, next: Chain)

  predicate WellFormed(h: Chain) {
    IsTest(h.a, h.c, h.b) && (h.Link? ==> (IsAnd(h.o) || h.o.op.Or?) && WellFormed(h.next))
  }

  /** The tokens of a chain, and then k. */
  function Tokens(h: Chain, k: Toks): Toks {
    match h
    case Last(a, c, b) => [a, c, b] + k
    case Link(a, c, b, o, next) => [a, c, b] + ([o] + Tokens(next, k))
  }

  lemma {:induction false} TokensThen(h: Chain, k: Toks)
    ensures Tokens(h, k) == Tokens(h, []) + k
  {
    if h.Link? { TokensThen(h.next, k); }
  }

  /** The truth values of a chain's tests, and whether each connective is an "and". */
  function Bits(h: Chain, v: Valuation): (r: seq<bool>)
    ensures |r| == |Ands(h)| + 1
  {
    [Test(h.a, h.c, h.b, v)] + if h.Last? then [] else Bits(h.next, v)
  }

  function Ands(h: Chain): seq<bool> {
    if h.Last? then [] else [!h.o.op.Or?] + Ands(h.next)
  }

  /** The run of "and"s at the front. */
  function Lead(bits: seq<bool>, ands: seq<bool>): bool
    requires |bits| == |ands| + 1
    decreases |ands|
  {
    bits[0] && (ands != [] && ands[0] ==> Lead(bits[1..], ands[1..]))
  }

  /** A chain's value, "and" binding tighter than "or". */
  function Value(bits: seq<bool>, ands: seq<bool>): bool
    requires |bits| == |ands| + 1
    decreases |ands|, 1
  {
    Lead(bits, ands) || After(bits, ands)
  }

  /** The alternatives after the first run of "and"s. */
  function After(bits: seq<bool>, ands: seq<bool>): bool
    requires |bits| == |ands| + 1
    decreases |ands|, 0
  {
    ands != [] && if ands[0] then After(bits[1..], ands[1..]) else Value(bits[1..], ands[1..])
  }

  function ChainValue(h: Chain, v: Valuation): bool { Value(Bits(h, v), Ands(h)) }

  /** The chain after the first "or". */
  predicate HasAlt(h: Chain) { h.Link? && (h.o.op.Or? || HasAlt(h.next)) }

  function Alt(h: Chain): (r: Chain)
    requires HasAlt(h)
    ensures Size(r) < Size(h) && (WellFormed(h) ==> WellFormed(r))
  {
    if h.o.op.Or? then h.next else Alt(h.next)
  }

  function AltOp(h: Chain): (o: Token)
    requires HasAlt(h)
    ensures o.op.Or?
  {
    if h.o.op.Or? then h.o else AltOp(h.next)
  }

  function Size(h: Chain): nat { if h.Last? then 1 else 1 + Size(h.next) }

  /** What the first run of "and"s leaves of a chain's tokens. */
  function TermRest(h: Chain, k: Toks): Toks {
    if HasAlt(h) then [AltOp(h)] + Tokens(Alt(h), k) else k
  }

  /** Nothing that could continue an expression. */
  predicate Stops(k: Toks) { k == [] || k[0].op.RParen? }

  lemma LinkSteps(h: Chain, v: Valuation)
    requires h.Link?
    ensures Bits(h, v)[1..] == Bits(h.next, v) && Ands(h)[1..] == Ands(h.next)
  {}

  lemma {:induction false} TermOfChain(h: Chain, k: Toks, v: Valuation)
    requires WellFormed(h) && Stops(k)
    ensures Term(Tokens(h, k), v) == Ok(Lead(Bits(h, v), Ands(h)), TermRest(h, k))
    decreases h
  {
    if h.Link? {
      var u := [h.o] + Tokens(h.next, k);
      TestMeans(h.a, h.c, h.b, u, v);
      LinkSteps(h, v);
      if !h.o.op.Or? {
        TermOfChain(h.next, k, v);
        AndMeans(Tokens(h, k), h.o, Tokens(h.next, k), v, Test(h.a, h.c, h.b, v), Lead(Bits(h.next, v), Ands(h.next)),
                 TermRest(h.next, k));
      }
    } else {
      TestMeans(h.a, h.c, h.b, k, v);
    }
  }

  lemma {:induction false} AfterIsAlt(h: Chain, v: Valuation)
    ensures After(Bits(h, v), Ands(h)) == (HasAlt(h) && ChainValue(Alt(h), v))
    decreases h
  {
    if h.Link? {
      LinkSteps(h, v);
      if !h.o.op.Or? { AfterIsAlt(h.next, v); }
    }
  }

  /** A chain of tests means its value, wherever it stands. */
  lemma {:induction false} ChainMeans(h: Chain, k: Toks, v: Valuation)
    requires WellFormed(h) && Stops(k)
    ensures Expr(Tokens(h, k), v) == Ok(ChainValue(h, v), k)
    decreases Size(h)
  {
    TermOfChain(h, k, v);
    AfterIsAlt(h, v);
    if HasAlt(h) {
      ChainMeans(Alt(h), k, v);
      OrMeans(Tokens(h, k), AltOp(h), Tokens(Alt(h), k), v, Lead(Bits(h, v), Ands(h)), ChainValue(Alt(h), v), k);
    }
  }

  // ---------------------------------------------------------------- inversion

  function InvertOp(op: Op): Op {
    match op
    case And => Or
    case And1 => Or
    case Or => And1
    case Neq => Eq
    case Eq => Neq
    case _ => op
  }

  function Invert(t: Token): Token { t.(op := InvertOp(t.op)) }

  /** The token list with every operator inverted. */
  function Inverted(t: Toks): (r: Toks)
    ensures |r| == |t| && forall i :: 0 <= i < |t| ==> r[i] == Invert(t[i])
  {
    seq(|t|, i requires 0 <= i < |t| => Invert(t[i]))
  }

  function Flip(h: Chain): Chain {
    match h
    case Last(a, c, b) => Last(a, Invert(c), b)
    case Link(a, c, b, o, next) => Link(a, Invert(c), b, Invert(o), Flip(next))
  }

  lemma {:induction false} InvertedFlips(h: Chain)
    requires WellFormed(h)
    ensures WellFormed(Flip(h)) && Inverted(Tokens(h, [])) == Tokens(Flip(h), [])
  {
    if h.Link? {
      InvertedFlips(h.next);
      InvertedTest(h.a, h.c, h.b, [h.o] + Tokens(h.next, []));
      assert Inverted([h.o] + Tokens(h.next, [])) == [Invert(h.o)] + Inverted(Tokens(h.next, []));
    } else {
      InvertedTest(h.a, h.c, h.b, []);
    }
  }

  lemma InvertedTest(a: Token, c: Token, b: Token, k: Toks)
    requires IsTest(a, c, b)
    ensures Inverted([a, c, b] + k) == [a, Invert(c), b] + Inverted(k)
  {
    assert Invert(a) == a && Invert(b) == b;
  }

  function Not(b: seq<bool>): (r: seq<bool>)
    ensures |r| == |b| && forall i :: 0 <= i < |b| ==> r[i] == !b[i]
  {
    seq(|b|, i requires 0 <= i < |b| => !b[i])
  }

  lemma {:induction false} FlipBits(h: Chain, v: Valuation)
    requires WellFormed(h)
    ensures Bits(Flip(h), v) == Not(Bits(h, v)) && Ands(Flip(h)) == Not(Ands(h))
  {
    if h.Link? {
      FlipBits(h.next, v);
      NotCons(Test(h.a, h.c, h.b, v), Bits(h.next, v));
      NotCons(!h.o.op.Or?, Ands(h.next));
    }
  }

  lemma NotCons(a: bool, b: seq<bool>)
    ensures Not([a] + b) == [!a] + Not(b)
  {}

  /** All connectives of one kind. */
  predicate Uniform(ands: seq<bool>) {
    forall i, j :: 0 <= i < |ands| && 0 <= j < |ands| ==> ands[i] == ands[j]
  }

  lemma {:induction false} AllAnds(bits: seq<bool>, ands: seq<bool>)
    requires |bits| == |ands| + 1 && forall i :: 0 <= i < |ands| ==> ands[i]
    ensures !After(bits, ands) && Value(Not(bits), Not(ands)) == !Lead(bits, ands)
    decreases |ands|
  {
    if ands != [] {
      assert Not(bits)[1..] == Not(bits[1..]) && Not(ands)[1..] == Not(ands[1..]);
      AllAnds(bits[1..], ands[1..]);
    }
  }

  lemma {:induction false} NotNot(b: seq<bool>)
    ensures Not(Not(b)) == b
  {}

  lemma UniformNegates(bits: seq<bool>, ands: seq<bool>)
    requires |bits| == |ands| + 1 && Uniform(ands)
    ensures Value(Not(bits), Not(ands)) == !Value(bits, ands)
  {
    if ands == [] || ands[0] {
      AllAnds(bits, ands);
    } else {
      AllAnds(Not(bits), Not(ands));
      NotNot(bits);
      NotNot(ands);
    }
  }

  /** A run of true tests up to an "or", or from one on, makes a chain true. */
  lemma {:induction false} TrueUpTo(bits: seq<bool>, ands: seq<bool>, q: nat)
    requires |bits| == |ands| + 1 && q < |ands| && !ands[q] && forall i :: 0 <= i <= q ==> bits[i]
    ensures Value(bits, ands)
    decreases q
  {
    if q > 0 { TrueUpTo(bits[1..], ands[1..], q - 1); }
  }

  lemma {:induction false} TrueFrom(bits: seq<bool>, ands: seq<bool>, q: nat)
    requires |bits| == |ands| + 1 && q < |ands| && !ands[q] && forall i :: q < i < |bits| ==> bits[i]
    ensures After(bits, ands)
    decreases q
  {
    if q > 0 { TrueFrom(bits[1..], ands[1..], q - 1); } else { AllTrue(bits[1..], ands[1..]); }
  }

  lemma {:induction false} AllTrue(bits: seq<bool>, ands: seq<bool>)
    requires |bits| == |ands| + 1 && forall i :: 0 <= i < |bits| ==> bits[i]
    ensures Lead(bits, ands)
    decreases |ands|
  {
    if ands != [] { AllTrue(bits[1..], ands[1..]); }
  }

  /** Two neighbouring connectives that differ. */
  lemma {:induction false} MixedAt(ands: seq<bool>) returns (p: nat)
    requires !Uniform(ands)
    ensures p + 1 < |ands| && ands[p] != ands[p + 1]
  {
    p := 0;
    while p + 1 < |ands| && ands[p] == ands[p + 1]
      invariant ands != [] && p < |ands| && forall i :: 0 <= i <= p ==> ands[i] == ands[0]
    {
      p := p + 1;
    }
  }

  lemma MixedFails(ands: seq<bool>) returns (bits: seq<bool>)
    requires !Uniform(ands)
    ensures |bits| == |ands| + 1 && Value(bits, ands) && Value(Not(bits), Not(ands))
  {
    var p := MixedAt(ands);
    bits := seq(|ands| + 1, i => if ands[p] then i > p + 1 else i <= p);
    if ands[p] {
      TrueFrom(bits, ands, p + 1);
      TrueUpTo(Not(bits), Not(ands), p);
    } else {
      TrueUpTo(bits, ands, p);
      TrueFrom(Not(bits), Not(ands), p + 1);
    }
  }

  ghost predicate AlwaysNegates(ands: seq<bool>) {
    forall bits: seq<bool> :: |bits| == |ands| + 1 ==> Value(Not(bits), Not(ands)) == !Value(bits, ands)
  }

  /** Swapping the connectives and negating the tests negates a chain, whatever its tests' values, exactly
    * when the chain does not mix "and" with "or". */
  lemma NegatesIff(ands: seq<bool>)
    ensures AlwaysNegates(ands) <==> Uniform(ands)
  {
    if Uniform(ands) {
      forall bits: seq<bool> | |bits| == |ands| + 1 ensures Value(Not(bits), Not(ands)) == !Value(bits, ands) {
        UniformNegates(bits, ands);
      }
    } else {
      var bits := MixedFails(ands);
    }
  }

  /** Inverting a chain with one kind of connective in place negates it. */
  lemma InvertNegates(h: Chain, v: Valuation)
    requires WellFormed(h) && Uniform(Ands(h))
    ensures WellFormed(Flip(h)) && Inverted(Tokens(h, [])) == Tokens(Flip(h), [])
    ensures ChainValue(Flip(h), v) == !ChainValue(h, v)
  {
    InvertedFlips(h);
    FlipBits(h, v);
    UniformNegates(Bits(h, v), Ands(h));
  }
}
