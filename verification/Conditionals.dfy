/** The first pass of fix_conditionals (scripts/tkcond.c): nested if, else and fi become one condition per
  * option, cloned from a stack of chains that later steps invert in place. */
module Conditionals {
  import opened Conditions

  datatype Tok = Comment | Define | MenuOption | Bool | Tristate | Int | Hex | Str | Choice | DepTristate
               | If | Else | Fi | Nop | Other

  /** The tokens whose option a variable may name. */
  predicate Settable(t: Tok)
    ensures Settable(t) <==> !Structural(t) && t !in {Comment, Define, MenuOption, Nop, Other}
  {
    t.Bool? || t.Int? || t.Hex? || t.Str? || t.Tristate? || t.Choice? || t.DepTristate?
  }

  /** The tokens that get a condition. */
  predicate Governed(t: Tok)
    ensures Governed(t) <==> !Structural(t) && t !in {Nop, Other}
  {
    Settable(t) || t.Comment? || t.Define? || t.MenuOption?
  }

  predicate Structural(t: Tok) { t.If? || t.Else? || t.Fi? }

  const MAX_DEPTH: nat := 25

  /** What a variable search sees of an item. */
  datatype Named = Named(settable: bool, name: string)

  // ---------------------------------------------------------------- flattening a stack of chains

  /** The first item that name denotes, from i on. */
  function Denoted(env: seq<Named>, name: string, i: nat): (r: nat)
    requires i <= |env|
    ensures i <= r <= |env| && (r < |env| ==> env[r] == Named(true, name))
    ensures forall j :: i <= j < r ==> env[j] != Named(true, name)
    decreases |env| - i
  {
    if i == |env| || env[i] == Named(true, name) then i else Denoted(env, name, i + 1)
  }

  function Resolve(t: Token, env: seq<Named>): Token {
    if t.op.Variable? && Denoted(env, t.text, 0) < |env| then Token(KVariable, "", Denoted(env, t.text, 0)) else t
  }

  function Resolved(t: Toks, env: seq<Named>): (r: Toks)
    ensures |r| == |t| && forall i :: 0 <= i < |t| ==> r[i] == Resolve(t[i], env)
  {
    seq(|t|, i requires 0 <= i < |t| => Resolve(t[i], env))
  }

  const LEFT := Token(LParen, "", 0)
  const RIGHT := Token(RParen, "", 0)
  const AND := Token(And, "", 0)

  /** get_token_cond: every chain in parentheses, joined by "and". */
  function Flatten(stack: seq<Toks>, env: seq<Named>): Toks
    decreases |stack|, 0
  {
    if stack == [] then []
    else [LEFT] + (Resolved(stack[0], env) + ([RIGHT] + Joined(stack[1..], env)))
  }

  function Joined(stack: seq<Toks>, env: seq<Named>): Toks
    decreases |stack|, 1
  {
    if stack == [] then [] else [AND] + Flatten(stack, env)
  }

  function ResolveChain(h: Chain, env: seq<Named>): Chain {
    match h
    case Last(a, c, b) => Last(Resolve(a, env), c, Resolve(b, env))
    case Link(a, c, b, o, next) => Link(Resolve(a, env), c, Resolve(b, env), o, ResolveChain(next, env))
  }

  lemma {:induction false} ResolvedChain(h: Chain, env: seq<Named>)
    requires WellFormed(h)
    ensures WellFormed(ResolveChain(h, env)) && Resolved(Tokens(h, []), env) == Tokens(ResolveChain(h, env), [])
  {
    if h.Link? {
      ResolvedChain(h.next, env);
      assert Resolved([h.o] + Tokens(h.next, []), env) == [h.o] + Resolved(Tokens(h.next, []), env);
      ResolvedTest(h.a, h.c, h.b, [h.o] + Tokens(h.next, []), env);
    } else {
      ResolvedTest(h.a, h.c, h.b, [], env);
    }
  }

  lemma ResolvedTest(a: Token, c: Token, b: Token, k: Toks, env: seq<Named>)
    requires IsTest(a, c, b)
    ensures Resolved([a, c, b] + k, env) == [Resolve(a, env), c, Resolve(b, env)] + Resolved(k, env)
  {}

  /** The names a valuation knows the items by. */
  ghost predicate SameNames(env: seq<Named>, v: Valuation) {
    |v.names| == |env| && forall i :: 0 <= i < |env| ==> v.names[i] == env[i].name
  }

  lemma ResolveOperand(t: Token, env: seq<Named>, v: Valuation)
    requires SameNames(env, v)
    ensures Operand(Resolve(t, env), v) == Operand(t, v)
  {
    var d := Denoted(env, t.text, 0);
    assert d < |env| ==> v.names[d] == env[d].name;
  }

  /** Replacing names by items leaves every test as it was. */
  lemma {:induction false} ResolveBits(h: Chain, env: seq<Named>, v: Valuation)
    requires SameNames(env, v) && WellFormed(h)
    ensures Bits(ResolveChain(h, env), v) == Bits(h, v) && Ands(ResolveChain(h, env)) == Ands(h)
  {
    ResolveOperand(h.a, env, v);
    ResolveOperand(h.b, env, v);
    if h.Link? { ResolveBits(h.next, env, v); }
  }

  predicate AllFormed(cs: seq<Chain>) { forall i :: 0 <= i < |cs| ==> WellFormed(cs[i]) }

  function Lists(cs: seq<Chain>): (r: seq<Toks>)
    ensures |r| == |cs| && forall i :: 0 <= i < |cs| ==> r[i] == Tokens(cs[i], [])
  {
    seq(|cs|, i requires 0 <= i < |cs| => Tokens(cs[i], []))
  }

  function AllTrue(cs: seq<Chain>, v: Valuation): bool {
    cs == [] || (ChainValue(cs[0], v) && AllTrue(cs[1..], v))
  }

  lemma {:induction false} AllTruePush(cs: seq<Chain>, c: Chain, v: Valuation)
    ensures AllTrue(cs + [c], v) == (AllTrue(cs, v) && ChainValue(c, v))
  {
    if cs != [] {
      assert (cs + [c])[1..] == cs[1..] + [c];
      AllTruePush(cs[1..], c, v);
    } else {
      assert cs + [c] == [c] && [c][1..] == [];
    }
  }

  lemma {:induction false} FlattenTerm(cs: seq<Chain>, env: seq<Named>, v: Valuation)
    requires cs != [] && AllFormed(cs) && SameNames(env, v)
    ensures Term(Flatten(Lists(cs), env), v) == Ok(AllTrue(cs, v), [])
    decreases |cs|
  {
    var h := ResolveChain(cs[0], env);
    var u := Joined(Lists(cs)[1..], env);
    assert Lists(cs)[1..] == Lists(cs[1..]);
    ResolvedChain(cs[0], env);
    ResolveBits(cs[0], env, v);
    TokensThen(h, [RIGHT] + u);
    assert Flatten(Lists(cs), env) == [LEFT] + Tokens(h, [RIGHT] + u);
    ChainMeans(h, [RIGHT] + u, v);
    ParenMeans(LEFT, RIGHT, Tokens(h, [RIGHT] + u), u, v, ChainValue(cs[0], v));
    if |cs| > 1 {
      FlattenTerm(cs[1..], env, v);
      AndMeans(Flatten(Lists(cs), env), AND, Flatten(Lists(cs[1..]), env), v, ChainValue(cs[0], v),
          AllTrue(cs[1..], v), []);
    }
  }

  /** The flattened condition is the conjunction of the chains it was made from. */
  lemma FlattenMeans(cs: seq<Chain>, env: seq<Named>, v: Valuation)
    requires cs != [] && AllFormed(cs) && SameNames(env, v)
    ensures Means(Flatten(Lists(cs), env), v, AllTrue(cs, v))
  {
    FlattenTerm(cs, env, v);
  }

  // ---------------------------------------------------------------- the walk over the item list

  /** What the walk reads of an item: its token, its name, and the condition the parser gave it. */
  datatype Cell = Cell(tok: Tok, name: string, cond: Toks)

  /** What becomes of an item: nothing, no condition at all, or a condition. */
  datatype Mark = Skip | Free | Attached(cond: Toks)

  /** else and fi have their if, and the stack of 25 entries suffices. */
  predicate Fits(cells: seq<Cell>, depth: nat) {
    cells == []
    || match cells[0].tok
       case If => depth < MAX_DEPTH && Fits(cells[1..], depth + 1)
       case Else => depth > 0 && Fits(cells[1..], depth)
       case Fi => depth > 0 && Fits(cells[1..], depth - 1)
       case DepTristate => depth < MAX_DEPTH && Fits(cells[1..], depth)
       case _ => Fits(cells[1..], depth)
  }

  function Attach(stack: seq<Toks>, env: seq<Named>): Mark {
    if stack == [] then Free else Attached(Flatten(stack, env))
  }

  function Top(stack: seq<Toks>): Toks
    requires stack != []
  {
    stack[|stack| - 1]
  }

  function Under<T>(stack: seq<T>): seq<T>
    requires stack != []
  {
    stack[..|stack| - 1]
  }

  function Pushed(c: Cell, stack: seq<Toks>): seq<Toks>
    requires c.tok.Else? || c.tok.Fi? ==> stack != []
  {
    match c.tok
    case If => stack + [c.cond]
    case Else => Under(stack) + [Inverted(Top(stack))]
    case Fi => Under(stack)
    case _ => stack
  }

  function MarkOf(c: Cell, stack: seq<Toks>, env: seq<Named>): Mark {
    if c.tok.DepTristate? then Attach(stack + [c.cond], env)
    else if Governed(c.tok) then Attach(stack, env)
    else Skip
  }

  function Walk(cells: seq<Cell>, stack: seq<Toks>, env: seq<Named>): (r: seq<Mark>)
    requires Fits(cells, |stack|)
    ensures |r| == |cells|
    decreases |cells|
  {
    if cells == [] then []
    else [MarkOf(cells[0], stack, env)] + Walk(cells[1..], Pushed(cells[0], stack), env)
  }

  // ---------------------------------------------------------------- the structured program

  /** A well-nested config.in: plain items, dep_tristate items with their dependency, and if statements. */
  datatype Prog =
    | Done
    | Item(tok: Tok, name: string, rest: Prog)
    | Dep(name: string, cond: Chain, rest: Prog)
    | Cond(cond: Chain, yes: Prog, hasElse: bool, no: Prog, rest: Prog)

  /** The item list of p, followed by k. */
  function Serialize(p: Prog, k: seq<Cell>): seq<Cell> {
    match p
    case Done => k
    case Item(tok, name, rest) => [Cell(tok, name, [])] + Serialize(rest, k)
    case Dep(name, cond, rest) => [Cell(DepTristate, name, Tokens(cond, []))] + Serialize(rest, k)
    case Cond(cond, yes, hasElse, no, rest) =>
      var fi := [Cell(Fi, "", [])] + Serialize(rest, k);
      [Cell(If, "", Tokens(cond, []))]
      + Serialize(yes, if hasElse then [Cell(Else, "", [])] + Serialize(no, fi) else fi)
  }

  /** Running p: whether each item of the list is reached, in a place that is itself reached if on. */
  datatype Visit = Structure | Reach(on: bool)

  function Visits(p: Prog, v: Valuation, on: bool, k: seq<Visit>): seq<Visit> {
    match p
    case Done => k
    case Item(tok, name, rest) => [if Governed(tok) then Reach(on) else Structure] + Visits(rest, v, on, k)
    case Dep(name, cond, rest) => [Reach(on && ChainValue(cond, v))] + Visits(rest, v, on, k)
    case Cond(cond, yes, hasElse, no, rest) =>
      var fi := [Structure] + Visits(rest, v, on, k);
      [Structure]
      + Visits(yes, v, on && ChainValue(cond, v),
               if hasElse then [Structure] + Visits(no, v, on && !ChainValue(cond, v), fi) else fi)
  }

  /** Every option, comment, menu option and define of the list is visited, and nothing else is. */
  ghost predicate VisitsFit(cells: seq<Cell>, rs: seq<Visit>) {
    && |rs| == |cells|
    && forall i :: 0 <= i < |cells| ==> (rs[i].Structure? <==> cells[i].tok in {If, Else, Fi, Nop, Other})
  }

  lemma FitCons(c: Cell, r: Visit, cells: seq<Cell>, rs: seq<Visit>)
    requires VisitsFit(cells, rs) && (r.Structure? <==> c.tok in {If, Else, Fi, Nop, Other})
    ensures VisitsFit([c] + cells, [r] + rs)
  {}

  lemma {:induction false} AllVisited(p: Prog, v: Valuation, on: bool, k: seq<Cell>, ks: seq<Visit>)
    requires VisitsFit(k, ks) && Formed(p)
    ensures VisitsFit(Serialize(p, k), Visits(p, v, on, ks))
  {
    match p
    case Done =>
    case Item(tok, name, rest) =>
      AllVisited(rest, v, on, k, ks);
      var r := if Governed(tok) then Reach(on) else Structure;
      FitCons(Cell(tok, name, []), r, Serialize(rest, k), Visits(rest, v, on, ks));
    case Dep(name, cond, rest) =>
      AllVisited(rest, v, on, k, ks);
      FitCons(Cell(DepTristate, name, Tokens(cond, [])), Reach(on && ChainValue(cond, v)), Serialize(rest, k),
              Visits(rest, v, on, ks));
    case Cond(cond, yes, hasElse, no, rest) =>
      AllVisited(rest, v, on, k, ks);
      FitCons(Cell(Fi, "", []), Structure, Serialize(rest, k), Visits(rest, v, on, ks));
      var fi, vi := [Cell(Fi, "", [])] + Serialize(rest, k), [Structure] + Visits(rest, v, on, ks);
      var then0, then1 := fi, vi;
      if hasElse {
        AllVisited(no, v, on && !ChainValue(cond, v), fi, vi);
        then0 := [Cell(Else, "", [])] + Serialize(no, fi);
        then1 := [Structure] + Visits(no, v, on && !ChainValue(cond, v), vi);
        FitCons(Cell(Else, "", []), Structure, Serialize(no, fi), Visits(no, v, on && !ChainValue(cond, v), vi));
      }
      AllVisited(yes, v, on && ChainValue(cond, v), then0, then1);
      FitCons(Cell(If, "", Tokens(cond, [])), Structure, Serialize(yes, then0),
              Visits(yes, v, on && ChainValue(cond, v), then1));
  }

  function Depth(p: Prog): nat {
    match p
    case Done => 0
    case Item(_, _, rest) => Depth(rest)
    case Dep(_, _, rest) => Max(1, Depth(rest))
    case Cond(_, yes, hasElse, no, rest) => Max(1 + Max(Depth(yes), if hasElse then Depth(no) else 0), Depth(rest))
  }

  function Max(a: nat, b: nat): nat { if a < b then b else a }

  /** Conditions are chains, those with an else of one kind of connective. */
  predicate Formed(p: Prog) {
    match p
    case Done => true
    case Item(tok, _, rest) => !Structural(tok) && !tok.DepTristate? && Formed(rest)
    case Dep(_, cond, rest) => WellFormed(cond) && Formed(rest)
    case Cond(cond, yes, hasElse, no, rest) =>
      WellFormed(cond) && Formed(yes) && Formed(rest) && (hasElse ==> Uniform(Ands(cond)) && Formed(no))
  }

  /** A condition is right if it is true exactly when the item is reached; no condition means always. */
  ghost predicate Right(m: Mark, r: Visit, v: Valuation) {
    match m
    case Skip => r.Structure?
    case Free => r == Reach(true)
    case Attached(t) => r.Reach? && Means(t, v, r.on)
  }

  ghost predicate AllRight(ms: seq<Mark>, rs: seq<Visit>, v: Valuation) {
    |ms| == |rs| && forall i :: 0 <= i < |ms| ==> Right(ms[i], rs[i], v)
  }

  lemma RightCons(m: Mark, r: Visit, ms: seq<Mark>, rs: seq<Visit>, v: Valuation)
    requires Right(m, r, v) && AllRight(ms, rs, v)
    ensures AllRight([m] + ms, [r] + rs, v)
  {}

  lemma AttachRight(cs: seq<Chain>, env: seq<Named>, v: Valuation)
    requires AllFormed(cs) && SameNames(env, v)
    ensures Right(Attach(Lists(cs), env), Reach(AllTrue(cs, v)), v)
  {
    if cs != [] { FlattenMeans(cs, env, v); }
  }

  /** One cell more in front of a walk. */
  lemma StepRight(c: Cell, stack: seq<Toks>, cells: seq<Cell>, r: Visit, rs: seq<Visit>, env: seq<Named>, v: Valuation)
    requires Fits([c] + cells, |stack|) && Right(MarkOf(c, stack, env), r, v)
    requires Fits(cells, |Pushed(c, stack)|) && AllRight(Walk(cells, Pushed(c, stack), env), rs, v)
    ensures AllRight(Walk([c] + cells, stack, env), [r] + rs, v)
  {
    assert ([c] + cells)[1..] == cells;
    RightCons(MarkOf(c, stack, env), r, Walk(cells, Pushed(c, stack), env), rs, v);
  }

  lemma FitsCons(c: Cell, cells: seq<Cell>, depth: nat)
    ensures Fits([c] + cells, depth) ==
      match c.tok
      case If => depth < MAX_DEPTH && Fits(cells, depth + 1)
      case Else => depth > 0 && Fits(cells, depth)
      case Fi => depth > 0 && Fits(cells, depth - 1)
      case DepTristate => depth < MAX_DEPTH && Fits(cells, depth)
      case _ => Fits(cells, depth)
  {
    assert ([c] + cells)[1..] == cells;
  }

  lemma ListsPush(cs: seq<Chain>, c: Chain)
    ensures Lists(cs + [c]) == Lists(cs) + [Tokens(c, [])]
    ensures Under(Lists(cs + [c])) == Lists(cs) && Top(Lists(cs + [c])) == Tokens(c, [])
  {}

  ghost predicate WalksRight(cells: seq<Cell>, cs: seq<Chain>, rs: seq<Visit>, env: seq<Named>, v: Valuation) {
    Fits(cells, |cs|) && AllRight(Walk(cells, Lists(cs), env), rs, v)
  }

  lemma FiRight(c: Chain, cs: seq<Chain>, cells: seq<Cell>, rs: seq<Visit>, env: seq<Named>, v: Valuation)
    requires WalksRight(cells, cs, rs, env, v)
    ensures WalksRight([Cell(Fi, "", [])] + cells, cs + [c], [Structure] + rs, env, v)
  {
    ListsPush(cs, c);
    FitsCons(Cell(Fi, "", []), cells, |cs| + 1);
    StepRight(Cell(Fi, "", []), Lists(cs + [c]), cells, Structure, rs, env, v);
  }

  lemma ElseRight(c: Chain, cs: seq<Chain>, cells: seq<Cell>, rs: seq<Visit>, env: seq<Named>, v: Valuation)
    requires WellFormed(c) && WalksRight(cells, cs + [Flip(c)], rs, env, v)
    ensures WalksRight([Cell(Else, "", [])] + cells, cs + [c], [Structure] + rs, env, v)
  {
    ListsPush(cs, c);
    ListsPush(cs, Flip(c));
    InvertedFlips(c);
    FitsCons(Cell(Else, "", []), cells, |cs| + 1);
    StepRight(Cell(Else, "", []), Lists(cs + [c]), cells, Structure, rs, env, v);
  }

  lemma IfRight(c: Chain, cs: seq<Chain>, cells: seq<Cell>, rs: seq<Visit>, env: seq<Named>, v: Valuation)
    requires |cs| < MAX_DEPTH && WalksRight(cells, cs + [c], rs, env, v)
    ensures WalksRight([Cell(If, "", Tokens(c, []))] + cells, cs, [Structure] + rs, env, v)
  {
    ListsPush(cs, c);
    FitsCons(Cell(If, "", Tokens(c, [])), cells, |cs|);
    StepRight(Cell(If, "", Tokens(c, [])), Lists(cs), cells, Structure, rs, env, v);
  }

  lemma ItemRight(tok: Tok, name: string, cs: seq<Chain>, cells: seq<Cell>, rs: seq<Visit>, env: seq<Named>,
      v: Valuation)
    requires !Structural(tok) && !tok.DepTristate? && AllFormed(cs) && SameNames(env, v)
    requires WalksRight(cells, cs, rs, env, v)
    ensures WalksRight([Cell(tok, name, [])] + cells, cs,
                       [if Governed(tok) then Reach(AllTrue(cs, v)) else Structure] + rs, env, v)
  {
    AttachRight(cs, env, v);
    FitsCons(Cell(tok, name, []), cells, |cs|);
    StepRight(Cell(tok, name, []), Lists(cs), cells,
              if Governed(tok) then Reach(AllTrue(cs, v)) else Structure, rs, env, v);
  }

  lemma DepRight(name: string, c: Chain, cs: seq<Chain>, cells: seq<Cell>, rs: seq<Visit>, env: seq<Named>,
      v: Valuation)
    requires |cs| < MAX_DEPTH && WellFormed(c) && AllFormed(cs) && SameNames(env, v)
    requires WalksRight(cells, cs, rs, env, v)
    ensures WalksRight([Cell(DepTristate, name, Tokens(c, []))] + cells, cs,
                       [Reach(AllTrue(cs, v) && ChainValue(c, v))] + rs, env, v)
  {
    var d := Cell(DepTristate, name, Tokens(c, []));
    AttachRight(cs + [c], env, v);
    AllTruePush(cs, c, v);
    ListsPush(cs, c);
    FitsCons(d, cells, |cs|);
    StepRight(d, Lists(cs), cells, Reach(AllTrue(cs, v) && ChainValue(c, v)), rs, env, v);
  }

  /** Under any stack of chains, the walk over p gives each item a condition that is true exactly when running
    * p reaches it. */
  lemma {:induction false} ProgRight(p: Prog, cs: seq<Chain>, k: seq<Cell>, ks: seq<Visit>, env: seq<Named>,
      v: Valuation)
    requires Formed(p) && AllFormed(cs) && SameNames(env, v) && |cs| + Depth(p) <= MAX_DEPTH
    requires WalksRight(k, cs, ks, env, v)
    ensures WalksRight(Serialize(p, k), cs, Visits(p, v, AllTrue(cs, v), ks), env, v)
    decreases p, 0
  {
    match p
    case Done =>
    case Item(tok, name, rest) =>
      ProgRight(rest, cs, k, ks, env, v);
      ItemRight(tok, name, cs, Serialize(rest, k), Visits(rest, v, AllTrue(cs, v), ks), env, v);
    case Dep(name, cond, rest) =>
      ProgRight(rest, cs, k, ks, env, v);
      DepRight(name, cond, cs, Serialize(rest, k), Visits(rest, v, AllTrue(cs, v), ks), env, v);
    case Cond(cond, yes, hasElse, no, rest) =>
      ProgRight(rest, cs, k, ks, env, v);
      FiRight(cond, cs, Serialize(rest, k), Visits(rest, v, AllTrue(cs, v), ks), env, v);
      var k1 := [Cell(Fi, "", [])] + Serialize(rest, k);
      var r1 := [Structure] + Visits(rest, v, AllTrue(cs, v), ks);
      AllTruePush(cs, cond, v);
      if hasElse {
        NoRight(cond, no, cs, Serialize(rest, k), Visits(rest, v, AllTrue(cs, v), ks), env, v);
        YesRight(cond, yes, cs, [Cell(Else, "", [])] + Serialize(no, k1),
                 [Structure] + Visits(no, v, AllTrue(cs, v) && !ChainValue(cond, v), r1), env, v);
      } else {
        YesRight(cond, yes, cs, k1, r1, env, v);
      }
  }

  lemma {:induction false} NoRight(cond: Chain, no: Prog, cs: seq<Chain>, k: seq<Cell>, ks: seq<Visit>,
      env: seq<Named>, v: Valuation)
    requires Formed(no) && WellFormed(cond) && Uniform(Ands(cond)) && AllFormed(cs)
    requires SameNames(env, v) && |cs| + 1 + Depth(no) <= MAX_DEPTH && WalksRight(k, cs, ks, env, v)
    ensures WalksRight([Cell(Else, "", [])] + Serialize(no, [Cell(Fi, "", [])] + k), cs + [cond],
                       [Structure] + Visits(no, v, AllTrue(cs, v) && !ChainValue(cond, v), [Structure] + ks), env, v)
    decreases no, 1
  {
    InvertNegates(cond, v);
    AllTruePush(cs, Flip(cond), v);
    FiRight(Flip(cond), cs, k, ks, env, v);
    ProgRight(no, cs + [Flip(cond)], [Cell(Fi, "", [])] + k, [Structure] + ks, env, v);
    ElseRight(cond, cs, Serialize(no, [Cell(Fi, "", [])] + k),
              Visits(no, v, AllTrue(cs + [Flip(cond)], v), [Structure] + ks), env, v);
  }

  lemma {:induction false} YesRight(cond: Chain, yes: Prog, cs: seq<Chain>, k: seq<Cell>, ks: seq<Visit>,
      env: seq<Named>, v: Valuation)
    requires Formed(yes) && AllFormed(cs + [cond]) && SameNames(env, v) && |cs| + 1 + Depth(yes) <= MAX_DEPTH
    requires WalksRight(k, cs + [cond], ks, env, v)
    ensures WalksRight([Cell(If, "", Tokens(cond, []))] + Serialize(yes, k), cs,
                       [Structure] + Visits(yes, v, AllTrue(cs + [cond], v), ks), env, v)
    decreases yes, 1
  {
    ProgRight(yes, cs + [cond], k, ks, env, v);
    IfRight(cond, cs, Serialize(yes, k), Visits(yes, v, AllTrue(cs + [cond], v), ks), env, v);
  }

  function EnvOf(cells: seq<Cell>): (r: seq<Named>)
    ensures |r| == |cells| && forall i :: 0 <= i < |cells| ==> r[i] == Named(Settable(cells[i].tok), cells[i].name)
  {
    seq(|cells|, i requires 0 <= i < |cells| => Named(Settable(cells[i].tok), cells[i].name))
  }

  /** For every well-nested program and every valuation: the condition attached to an item is true exactly when
    * running the program reaches the item, its own dependency included. */
  lemma ConditionsFaithful(p: Prog, v: Valuation)
    requires Formed(p) && Depth(p) <= MAX_DEPTH && SameNames(EnvOf(Serialize(p, [])), v)
    ensures Fits(Serialize(p, []), 0)
    ensures AllRight(Walk(Serialize(p, []), [], EnvOf(Serialize(p, []))), Visits(p, v, true, []), v)
  {
    assert Lists([]) == [];
    ProgRight(p, [], [], [], EnvOf(Serialize(p, [])), v);
  }
}
