/** The first pass of fix_conditionals as it works on memory: the entries and the stack hold references to
  * condition chains, a chain is inverted where it is, and every attached condition is a new copy. */
module ConditionPass {
  import opened Conditions
  import opened Conditionals

  /** A reference to a chain of the memory. */
  datatype Ref = Null | At(n: nat)

  /** struct kconfig. */
  datatype Entry = Entry(tok: Tok, name: string, cond: Ref)

  type Chains = seq<Toks>

  function Text(chains: Chains, r: Ref): Toks {
    if r.At? && r.n < |chains| then chains[r.n] else []
  }

  function CellOf(chains: Chains, e: Entry): Cell { Cell(e.tok, e.name, Text(chains, e.cond)) }

  function Cells(items: seq<Entry>, chains: Chains): (r: seq<Cell>)
    ensures |r| == |items| && forall i :: 0 <= i < |items| ==> r[i] == CellOf(chains, items[i])
  {
    seq(|items|, i requires 0 <= i < |items| => CellOf(chains, items[i]))
  }

  /** The names of a list do not depend on its conditions. */
  function Env(items: seq<Entry>): (r: seq<Named>)
    ensures |r| == |items| && forall i :: 0 <= i < |items| ==> r[i] == Named(Settable(items[i].tok), items[i].name)
  {
    EnvOf(Cells(items, []))
  }

  function Texts(chains: Chains, stack: seq<Ref>): (r: seq<Toks>)
    ensures |r| == |stack| && forall i :: 0 <= i < |stack| ==> r[i] == Text(chains, stack[i])
  {
    seq(|stack|, i requires 0 <= i < |stack| => Text(chains, stack[i]))
  }

  /** No entry from i on shares its chain with another, and all chains exist. */
  ghost predicate Apart(items: seq<Entry>, i: nat, n: nat) {
    && (forall j, k :: i <= j < k < |items| && items[j].cond.At? ==> items[j].cond != items[k].cond)
    && (forall j :: i <= j < |items| && items[j].cond.At? ==> items[j].cond.n < n)
  }

  /** The stacked chains are old ones, separate, and in use by no entry from i on. */
  ghost predicate Owned(stack: seq<Ref>, items: seq<Entry>, i: nat, n: nat) {
    && (forall d :: 0 <= d < |stack| && stack[d].At? ==> stack[d].n < n)
    && (forall d, e :: 0 <= d < e < |stack| && stack[d].At? ==> stack[d] != stack[e])
    && (forall d, j :: 0 <= d < |stack| && i <= j < |items| && stack[d].At? ==> stack[d] != items[j].cond)
  }

  /** What the pass has made of an entry that was c; a condition it attached is a chain beyond the first n. */
  ghost predicate Became(e: Entry, c: Cell, m: Mark, chains: Chains, n: nat) {
    && e.tok == (if Structural(c.tok) then Nop else c.tok) && e.name == c.name
    && match m
       case Skip => c.tok.If? ==> e.cond == Null
       case Free => e.cond == Null
       case Attached(t) => e.cond.At? && n <= e.cond.n < |chains| && chains[e.cond.n] == t
  }

  /** No two of the first i entries share a chain that has been attached. */
  ghost predicate OwnChains(items: seq<Entry>, plan: seq<Mark>, i: nat)
    requires i <= |items| == |plan|
  {
    forall j, k :: 0 <= j < k < i && plan[j].Attached? && plan[k].Attached? ==> items[j].cond != items[k].cond
  }

  /** The first i entries have become what the plan says, each condition in a chain of its own. */
  ghost predicate Settled(items: seq<Entry>, cells: seq<Cell>, plan: seq<Mark>, i: nat, chains: Chains, n: nat) {
    && i <= |items| == |cells| == |plan|
    && (forall j :: 0 <= j < i ==> Became(items[j], cells[j], plan[j], chains, n))
    && OwnChains(items, plan, i)
  }

  ghost predicate Todo(items: seq<Entry>, cells: seq<Cell>, i: nat, chains: Chains) {
    |items| == |cells| && forall j :: i <= j < |items| ==> CellOf(chains, items[j]) == cells[j]
  }

  /** What the walk does from the i-th cell on, with this stack, is what is planned. */
  ghost predicate Planned(cells: seq<Cell>, plan: seq<Mark>, i: nat, stack: seq<Toks>) {
    i <= |cells| == |plan| && Fits(cells[i..], |stack|) && Walk(cells[i..], stack, EnvOf(cells)) == plan[i..]
  }

  /** After i entries of a list that was cells, with n chains, when the pass began. */
  ghost predicate Inv(items: seq<Entry>, chains: Chains, stack: seq<Ref>, cells: seq<Cell>, plan: seq<Mark>, i: nat,
      n: nat) {
    && n <= |chains| && |stack| <= MAX_DEPTH
    && Planned(cells, plan, i, Texts(chains, stack))
    && Settled(items, cells, plan, i, chains, n)
    && Todo(items, cells, i, chains)
    && Apart(items, i, n)
    && Owned(stack, items, i, n)
  }

  lemma Next(cells: seq<Cell>, plan: seq<Mark>, i: nat, stack: seq<Toks>)
    requires Planned(cells, plan, i, stack) && i < |cells|
    ensures cells[i].tok.If? || cells[i].tok.DepTristate? ==> |stack| < MAX_DEPTH
    ensures cells[i].tok.Else? || cells[i].tok.Fi? ==> |stack| > 0
    ensures plan[i] == MarkOf(cells[i], stack, EnvOf(cells)) && Planned(cells, plan, i + 1, Pushed(cells[i], stack))
  {
    assert cells[i..][0] == cells[i] && cells[i..][1..] == cells[i + 1..] && plan[i..][1..] == plan[i + 1..];
    assert plan[i] == plan[i..][0];
  }

  lemma EnvKept(items: seq<Entry>, cells: seq<Cell>, plan: seq<Mark>, i: nat, chains: Chains, n: nat)
    requires Settled(items, cells, plan, i, chains, n) && Todo(items, cells, i, chains)
    ensures Env(items) == EnvOf(cells)
  {
    forall j | 0 <= j < |items| ensures Env(items)[j] == EnvOf(cells)[j] {
      assert if j < i then Became(items[j], cells[j], plan[j], chains, n) else CellOf(chains, items[j]) == cells[j];
    }
  }

  /** What a step does to the memory: chains beyond the first n stay, and so do those of entries from i on. */
  ghost predicate Spares(chains: Chains, now: Chains, items: seq<Entry>, i: nat, n: nat) {
    && |chains| <= |now|
    && (forall k :: n <= k < |chains| ==> now[k] == chains[k])
    && (forall j :: i <= j < |items| ==> Text(now, items[j].cond) == Text(chains, items[j].cond))
  }

  lemma SettledMore(items: seq<Entry>, chains: Chains, cells: seq<Cell>, plan: seq<Mark>, i: nat, n: nat, e: Entry,
      now: Chains)
    requires Settled(items, cells, plan, i, chains, n) && i < |items|
    requires Became(e, cells[i], plan[i], now, n) && Spares(chains, now, items, i + 1, n)
    requires plan[i].Attached? ==> e.cond == At(|chains|)
    ensures Settled(items[i := e], cells, plan, i + 1, now, n)
  {
    forall j | 0 <= j < i + 1 ensures Became(items[i := e][j], cells[j], plan[j], now, n) {
      assert j < i ==> Became(items[j], cells[j], plan[j], chains, n);
    }
    forall j, k | 0 <= j < k < i + 1 && plan[j].Attached? && plan[k].Attached?
      ensures items[i := e][j].cond != items[i := e][k].cond
    {
      assert Became(items[j], cells[j], plan[j], chains, n);
    }
  }

  lemma TodoLess(items: seq<Entry>, chains: Chains, cells: seq<Cell>, i: nat, n: nat, e: Entry, now: Chains)
    requires Todo(items, cells, i, chains) && Apart(items, i, n) && i < |items| && Spares(chains, now, items, i + 1, n)
    ensures Todo(items[i := e], cells, i + 1, now) && Apart(items[i := e], i + 1, n)
  {
    forall j | i + 1 <= j < |items| ensures CellOf(now, items[i := e][j]) == cells[j] {
      assert CellOf(chains, items[j]) == cells[j];
    }
  }

  lemma OwnedLess(stack: seq<Ref>, items: seq<Entry>, i: nat, n: nat, e: Entry)
    requires Owned(stack, items, i, n) && i < |items|
    ensures Owned(stack, items[i := e], i + 1, n)
  {}

  lemma OwnedPush(stack: seq<Ref>, items: seq<Entry>, i: nat, n: nat, e: Entry)
    requires Owned(stack, items, i, n) && Apart(items, i, n) && i < |items|
    ensures Owned(stack + [items[i].cond], items[i := e], i + 1, n)
  {}

  /** The i-th entry becomes e; the memory becomes now and the stack after. */
  lemma Step(items: seq<Entry>, chains: Chains, stack: seq<Ref>, cells: seq<Cell>, plan: seq<Mark>, i: nat, n: nat,
      e: Entry, now: Chains, after: seq<Ref>)
    requires Inv(items, chains, stack, cells, plan, i, n) && i < |items|
    requires Became(e, cells[i], plan[i], now, n) && Spares(chains, now, items, i + 1, n)
    requires plan[i].Attached? ==> e.cond == At(|chains|)
    requires Planned(cells, plan, i + 1, Texts(now, after)) && |after| <= MAX_DEPTH
    requires Owned(after, items[i := e], i + 1, n)
    ensures Inv(items[i := e], now, after, cells, plan, i + 1, n)
  {
    SettledMore(items, chains, cells, plan, i, n, e, now);
    TodoLess(items, chains, cells, i, n, e, now);
  }

  /** The next entry is as it was parsed. */
  lemma Here(items: seq<Entry>, chains: Chains, stack: seq<Ref>, cells: seq<Cell>, plan: seq<Mark>, i: nat, n: nat)
    requires Inv(items, chains, stack, cells, plan, i, n) && i < |items|
    ensures cells[i] == CellOf(chains, items[i])
    ensures cells[i].tok.If? || cells[i].tok.DepTristate? ==> |stack| < MAX_DEPTH
    ensures cells[i].tok.Else? || cells[i].tok.Fi? ==> |stack| > 0
    ensures plan[i] == MarkOf(cells[i], Texts(chains, stack), EnvOf(cells))
    ensures Planned(cells, plan, i + 1, Pushed(cells[i], Texts(chains, stack)))
  {
    assert CellOf(chains, items[i]) == cells[i];
    Next(cells, plan, i, Texts(chains, stack));
  }

  lemma Start(items: seq<Entry>, chains: Chains)
    requires Apart(items, 0, |chains|) && Fits(Cells(items, chains), 0)
    ensures var cells := Cells(items, chains);
            Inv(items, chains, [], cells, Walk(cells, [], EnvOf(cells)), 0, |chains|)
  {
    var cells := Cells(items, chains);
    var plan := Walk(cells, [], EnvOf(cells));
    assert cells[0..] == cells && plan[0..] == plan && Texts(chains, []) == [];
  }

  lemma AfterIf(items: seq<Entry>, chains: Chains, stack: seq<Ref>, cells: seq<Cell>, plan: seq<Mark>, i: nat, n: nat)
    requires Inv(items, chains, stack, cells, plan, i, n) && i < |items| && items[i].tok.If?
    ensures |stack| < MAX_DEPTH
    ensures Inv(items[i := Entry(Nop, items[i].name, Null)], chains, stack + [items[i].cond], cells, plan, i + 1, n)
  {
    var e := Entry(Nop, items[i].name, Null);
    Here(items, chains, stack, cells, plan, i, n);
    assert Texts(chains, stack + [items[i].cond]) == Texts(chains, stack) + [cells[i].cond];
    OwnedPush(stack, items, i, n, e);
    Step(items, chains, stack, cells, plan, i, n, e, chains, stack + [items[i].cond]);
  }

  lemma InvertedSpares(items: seq<Entry>, chains: Chains, stack: seq<Ref>, i: nat, n: nat, now: Chains)
    requires Owned(stack, items, i, n) && stack != [] && n <= |chains| && InvertedAt(chains, stack[|stack| - 1], now)
    ensures Spares(chains, now, items, i, n)
    ensures Texts(now, stack) == Under(Texts(chains, stack)) + [Inverted(Top(Texts(chains, stack)))]
  {}

  lemma ElseHasIf(items: seq<Entry>, chains: Chains, stack: seq<Ref>, cells: seq<Cell>, plan: seq<Mark>, i: nat, n: nat)
    requires Inv(items, chains, stack, cells, plan, i, n) && i < |items| && items[i].tok.Else?
    ensures |stack| > 0
  {
    Here(items, chains, stack, cells, plan, i, n);
  }

  lemma AfterElse(items: seq<Entry>, chains: Chains, stack: seq<Ref>, cells: seq<Cell>, plan: seq<Mark>, i: nat,
      n: nat, now: Chains)
    requires Inv(items, chains, stack, cells, plan, i, n) && i < |items| && items[i].tok.Else?
    requires |stack| > 0 && InvertedAt(chains, stack[|stack| - 1], now)
    ensures Inv(items[i := items[i].(tok := Nop)], now, stack, cells, plan, i + 1, n)
  {
    var e := items[i].(tok := Nop);
    Here(items, chains, stack, cells, plan, i, n);
    InvertedSpares(items, chains, stack, i, n, now);
    OwnedLess(stack, items, i, n, e);
    Step(items, chains, stack, cells, plan, i, n, e, now, stack);
  }

  lemma AfterFi(items: seq<Entry>, chains: Chains, stack: seq<Ref>, cells: seq<Cell>, plan: seq<Mark>, i: nat, n: nat)
    requires Inv(items, chains, stack, cells, plan, i, n) && i < |items| && items[i].tok.Fi?
    ensures |stack| > 0 && Inv(items[i := items[i].(tok := Nop)], chains, Under(stack), cells, plan, i + 1, n)
  {
    var e := items[i].(tok := Nop);
    Here(items, chains, stack, cells, plan, i, n);
    assert Texts(chains, Under(stack)) == Under(Texts(chains, stack));
    OwnedLess(stack, items, i, n, e);
    assert Owned(Under(stack), items[i := e], i + 1, n);
    Step(items, chains, stack, cells, plan, i, n, e, chains, Under(stack));
  }

  /** An entry with a condition of its own on top of the stack (dep_tristate), or without. */
  lemma AfterItem(items: seq<Entry>, chains: Chains, stack: seq<Ref>, cells: seq<Cell>, plan: seq<Mark>, i: nat,
      n: nat, on: seq<Ref>, r: Ref, now: Chains)
    requires Inv(items, chains, stack, cells, plan, i, n) && i < |items| && Governed(items[i].tok)
    requires on == if items[i].tok.DepTristate? then stack + [items[i].cond] else stack
    requires Cloned(chains, on, Env(items), r, now)
    ensures Inv(items[i := items[i].(cond := r)], now, stack, cells, plan, i + 1, n)
  {
    var e := items[i].(cond := r);
    EnvKept(items, cells, plan, i, chains, n);
    Here(items, chains, stack, cells, plan, i, n);
    ClonedSpares(items, chains, stack, i, n, on, r, now);
    OwnedLess(stack, items, i, n, e);
    OnTop(chains, items[i], stack, on, EnvOf(cells));
    ClonedMark(e, cells[i], plan[i], chains, on, EnvOf(cells), r, now, n);
    Step(items, chains, stack, cells, plan, i, n, e, now, stack);
  }

  lemma OnTop(chains: Chains, e: Entry, stack: seq<Ref>, on: seq<Ref>, env: seq<Named>)
    requires Governed(e.tok) && on == if e.tok.DepTristate? then stack + [e.cond] else stack
    ensures MarkOf(CellOf(chains, e), Texts(chains, stack), env) == Attach(Texts(chains, on), env)
  {
    assert e.tok.DepTristate? ==> Texts(chains, on) == Texts(chains, stack) + [Text(chains, e.cond)];
  }

  lemma ClonedMark(e: Entry, c: Cell, m: Mark, chains: Chains, on: seq<Ref>, env: seq<Named>, r: Ref, now: Chains,
      n: nat)
    requires Cloned(chains, on, env, r, now) && n <= |chains| && m == Attach(Texts(chains, on), env)
    requires e == Entry(c.tok, c.name, r) && !Structural(c.tok)
    ensures Became(e, c, m, now, n) && (m.Attached? ==> r == At(|chains|))
  {}

  lemma ClonedSpares(items: seq<Entry>, chains: Chains, stack: seq<Ref>, i: nat, n: nat, on: seq<Ref>, r: Ref,
      now: Chains)
    requires Owned(stack, items, i, n) && Apart(items, i, n) && n <= |chains| && Cloned(chains, on, Env(items), r, now)
    ensures Spares(chains, now, items, i + 1, n) && Texts(now, stack) == Texts(chains, stack)
  {}

  lemma AfterOther(items: seq<Entry>, chains: Chains, stack: seq<Ref>, cells: seq<Cell>, plan: seq<Mark>, i: nat,
      n: nat)
    requires Inv(items, chains, stack, cells, plan, i, n) && i < |items|
    requires !Governed(items[i].tok) && !Structural(items[i].tok)
    ensures Inv(items, chains, stack, cells, plan, i + 1, n)
  {
    Here(items, chains, stack, cells, plan, i, n);
    OwnedLess(stack, items, i, n, items[i]);
    Step(items, chains, stack, cells, plan, i, n, items[i], chains, stack);
    assert items[i := items[i]] == items;
  }

  /** One chain inverted, the others as before. */
  ghost predicate InvertedAt(chains: Chains, r: Ref, now: Chains) {
    now == if r.At? && r.n < |chains| then chains[r.n := Inverted(chains[r.n])] else chains
  }

  /** Nothing for an empty stack, otherwise one new chain: the flattened stack. */
  ghost predicate Cloned(chains: Chains, stack: seq<Ref>, env: seq<Named>, r: Ref, now: Chains) {
    if stack == [] then r == Null && now == chains
    else r == At(|chains|) && now == chains + [Flatten(Texts(chains, stack), env)]
  }

  lemma FlattenStep(out: Toks, stack: seq<Toks>, i: nat, env: seq<Named>)
    requires i < |stack|
    ensures var o := out + ([LEFT] + Resolved(stack[i], env) + [RIGHT]);
            out + Flatten(stack[i..], env)
            == (if i < |stack| - 1 then o + [AND] else o) + Flatten(stack[i + 1..], env)
  {
    assert stack[i..][1..] == stack[i + 1..];
  }

  /** The configuration list being processed, the memory its conditions are in, and the stack of references. */
  class ConfigList {
    var items: seq<Entry>
    var chains: Chains
    var conditions: seq<Ref>

    constructor (list: seq<Entry>, memory: Chains)
      ensures items == list && chains == memory && conditions == []
    {
      items, chains, conditions := list, memory, [];
    }

    /** invert_condition. */
    method InvertCondition(r: Ref)
      modifies this`chains
      ensures InvertedAt(old(chains), r, chains)
    {
      if r.Null? || r.n >= |chains| { return; }
      var t := chains[r.n];
      ghost var was := t;
      var i := 0;
      while i < |t|
        invariant 0 <= i <= |was| == |t| && |chains| == old(|chains|)
        invariant forall k :: 0 <= k < |was| ==> t[k] == if k < i then Invert(was[k]) else was[k]
        invariant chains == old(chains)[r.n := t]
      {
        match t[i].op {
          case And => t := t[i := t[i].(op := Or)];
          case And1 => t := t[i := t[i].(op := Or)];
          case Or => t := t[i := t[i].(op := And1)];
          case Neq => t := t[i := t[i].(op := Eq)];
          case Eq => t := t[i := t[i].(op := Neq)];
          case _ =>
        }
        chains := chains[r.n := t];
        i := i + 1;
      }
      assert t == Inverted(was);
    }

    /** The search for the item a variable names. */
    method FindItem(name: string) returns (i: nat)
      ensures i == Denoted(Env(items), name, 0)
    {
      i := 0;
      while i < |items|
        invariant i <= |items| && Denoted(Env(items), name, 0) == Denoted(Env(items), name, i)
      {
        if Settable(items[i].tok) {
          if items[i].name == name { return; }
        }
        i := i + 1;
      }
    }

    /** The copying loop of get_token_cond. */
    method CloneChain(t: Toks) returns (r: Toks)
      ensures r == Resolved(t, Env(items))
    {
      r := [];
      var i := 0;
      while i < |t|
        invariant 0 <= i <= |t| && r == Resolved(t, Env(items))[..i]
      {
        var copy := t[i];
        if t[i].op.Variable? {
          var k := FindItem(t[i].text);
          if k < |items| { copy := Token(KVariable, "", k); }
        }
        r := r + [copy];
        i := i + 1;
      }
    }

    /** get_token_cond over the whole stack. */
    method GetTokenCond() returns (r: Ref)
      modifies this`chains
      ensures Cloned(old(chains), conditions, Env(items), r, chains)
    {
      var out: Toks := [];
      var i := 0;
      ghost var stack, env := Texts(chains, conditions), Env(items);
      while i < |conditions|
        invariant chains == old(chains)
        invariant 0 <= i <= |conditions| && out + Flatten(stack[i..], env) == Flatten(stack, env)
      {
        var body := CloneChain(Text(chains, conditions[i]));
        FlattenStep(out, stack, i, env);
        assert body == Resolved(stack[i], env);
        out := out + ([LEFT] + body + [RIGHT]);
        if i < |conditions| - 1 { out := out + [AND]; }
        i := i + 1;
      }
      assert out == Flatten(stack, env) by {
        assert stack[i..] == [];
      }
      r := Null;
      if |conditions| > 0 {
        r := At(|chains|);
        chains := chains + [out];
      }
    }

    ghost var cells: seq<Cell>
    ghost var plan: seq<Mark>
    ghost var n: nat

    ghost predicate Underway(i: nat)
      reads this
    {
      Inv(items, chains, conditions, cells, plan, i, n)
    }

    /** tok_if: push the condition and drop the entry. */
    method OnIf(i: nat)
      requires Underway(i) && i < |items| && items[i].tok.If?
      modifies this`items, this`conditions
      ensures Underway(i + 1) && |items| == old(|items|)
    {
      AfterIf(items, chains, conditions, cells, plan, i, n);
      conditions := conditions + [items[i].cond];
      items := items[i := Entry(Nop, items[i].name, Null)];
    }

    /** tok_else: invert the condition on top of the stack where it is. */
    method OnElse(i: nat)
      requires Underway(i) && i < |items| && items[i].tok.Else?
      modifies this`items, this`chains
      ensures Underway(i + 1) && |items| == old(|items|)
    {
      assert |conditions| > 0 by { ElseHasIf(items, chains, conditions, cells, plan, i, n); }
      ghost var was, after := chains, items[i := items[i].(tok := Nop)];
      InvertCondition(conditions[|conditions| - 1]);
      assert Inv(after, chains, conditions, cells, plan, i + 1, n) by {
        AfterElse(items, was, conditions, cells, plan, i, n, chains);
      }
      items := items[i := items[i].(tok := Nop)];
      assert items == after;
    }

    /** tok_fi: drop the condition on top of the stack. */
    method OnFi(i: nat)
      requires Underway(i) && i < |items| && items[i].tok.Fi?
      modifies this`items, this`conditions
      ensures Underway(i + 1) && |items| == old(|items|)
    {
      AfterFi(items, chains, conditions, cells, plan, i, n);
      conditions := conditions[..|conditions| - 1];
      items := items[i := items[i].(tok := Nop)];
    }

    /** An option, a comment or a define: attach a copy of the stack, a dep_tristate's own condition on top. */
    method OnItem(i: nat)
      requires Underway(i) && i < |items| && Governed(items[i].tok)
      modifies this`items, this`chains, this`conditions
      ensures Underway(i + 1) && |items| == old(|items|)
    {
      var dep := items[i].tok.DepTristate?;
      if dep { conditions := conditions + [items[i].cond]; }
      var r := GetTokenCond();
      assert Inv(items[i := items[i].(cond := r)], chains, old(conditions), cells, plan, i + 1, n) by {
        AfterItem(items, old(chains), old(conditions), cells, plan, i, n, conditions, r, chains);
      }
      if dep { conditions := conditions[..|conditions| - 1]; }
      assert conditions == old(conditions);
      items := items[i := items[i].(cond := r)];
    }

    /** The switch of the loop. */
    method Process(i: nat)
      requires Underway(i) && i < |items|
      modifies this`items, this`chains, this`conditions
      ensures Underway(i + 1) && |items| == old(|items|)
    {
      if items[i].tok.If? {
        OnIf(i);
      } else if items[i].tok.Else? {
        OnElse(i);
      } else if items[i].tok.Fi? {
        OnFi(i);
      } else if Governed(items[i].tok) {
        OnItem(i);
      } else {
        AfterOther(items, chains, conditions, cells, plan, i, n);
      }
    }

    /** The first loop of fix_conditionals. Every governed entry ends with the condition that the walk computes
      * from the list as it was parsed, in a chain of its own that no later inversion has touched. */
    method FixConditionals()
      requires Apart(items, 0, |chains|) && Fits(Cells(items, chains), 0) && conditions == []
      modifies this
      ensures var was := old(Cells(items, chains));
              Settled(items, was, Walk(was, [], EnvOf(was)), |was|, chains, old(|chains|)) && Env(items) == EnvOf(was)
    {
      cells, n := Cells(items, chains), |chains|;
      plan := Walk(cells, [], EnvOf(cells));
      Start(items, chains);
      var i := 0;
      while i < |items|
        invariant 0 <= i <= |items| == |cells| && Underway(i)
        invariant cells == old(Cells(items, chains)) && plan == Walk(cells, [], EnvOf(cells)) && n == old(|chains|)
      {
        Process(i);
        i := i + 1;
      }
      EnvKept(items, cells, plan, i, chains, n);
    }
  }

  /** Whether an entry's condition, if it has one, is true exactly when it should be. */
  ghost predicate EntryRight(e: Entry, r: Visit, chains: Chains, v: Valuation) {
    r.Reach? ==> if e.cond.Null? then r.on else Means(Text(chains, e.cond), v, r.on)
  }

  /** The pass preserves meaning: for a list parsed from a well-nested program, what the pass leaves in memory for
    * each option is a condition that is true exactly when running the program reaches the option. */
  lemma PassFaithful(p: Prog, v: Valuation, items: seq<Entry>, chains: Chains, n: nat)
    requires Formed(p) && Depth(p) <= MAX_DEPTH && SameNames(EnvOf(Serialize(p, [])), v)
    requires Fits(Serialize(p, []), 0)
    requires Settled(items, Serialize(p, []), Walk(Serialize(p, []), [], EnvOf(Serialize(p, []))), |items|, chains, n)
    ensures var rs := Visits(p, v, true, []);
            && |rs| == |items| && (forall i :: 0 <= i < |items| ==> EntryRight(items[i], rs[i], chains, v))
            && VisitsFit(Serialize(p, []), rs)
  {
    AllVisited(p, v, true, [], []);
    var cells := Serialize(p, []);
    var ms, rs := Walk(cells, [], EnvOf(cells)), Visits(p, v, true, []);
    ConditionsFaithful(p, v);
    forall i | 0 <= i < |items| ensures EntryRight(items[i], rs[i], chains, v) {
      assert Became(items[i], cells[i], ms[i], chains, n) && Right(ms[i], rs[i], v);
    }
  }
}
