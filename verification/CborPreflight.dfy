/**
 * The allocation-free token pass in front of the CBOR decoder: which token streams get through.
 *
 * Tokens are those of RFC 8949, section 3; the tokenizer itself is not part of this model.
 */
module CborPreflight {
  import opened Bytes
  import opened Wrappers

  const MAX_SMP_CBOR_BIGNUM_BYTES: nat := 4_096

  datatype Length = Definite(count: nat) | Indefinite

  datatype Token =
    | Break
    | ByteString(length: nat)
    | Scalar
    | Array(items: Length)
    | Map(pairs: Length)
    | Tag(number: nat)

  // ----- complete item trees

  /** `closed` tells a definite container, whose size is declared, from one that ends with a break. */
  datatype Item =
    | Leaf(token: Token)
    | Sequence(closed: bool, children: seq<Item>)
    | Mapping(closed: bool, children: seq<Item>)
    | Tagged(number: nat, content: Item)

  predicate IsBignum(number: nat) {
    number == 2 || number == 3
  }

  predicate ShortBytes(item: Item) {
    item.Leaf? && item.token.ByteString? && item.token.length <= MAX_SMP_CBOR_BIGNUM_BYTES
  }

  predicate WellFormed(item: Item) {
    match item
    case Leaf(token) => token.ByteString? || token.Scalar?
    case Sequence(closed, children) =>
      (closed ==> |children| <= MAX_SAFE_INTEGER) && forall c | c in children :: WellFormed(c)
    case Mapping(closed, children) =>
      (closed ==> |children| % 2 == 0 && |children| / 2 <= MAX_SAFE_INTEGER) && forall c | c in children :: WellFormed(c)
    case Tagged(number, content) =>
      // A bignum is a byte string, and a short one.
      WellFormed(content) && (number in {2, 3} ==> content.Leaf? && content.token.ByteString? && content.token.length <= 4_096)
  }

  function Head(item: Item): Token {
    match item
    case Leaf(token) => token
    case Sequence(closed, children) => Array(if closed then Definite(|children|) else Indefinite)
    case Mapping(closed, children) => Map(if closed then Definite(|children| / 2) else Indefinite)
    case Tagged(number, _) => Tag(number)
  }

  function Tokens(item: Item): seq<Token>
    decreases item, 1
  {
    match item
    case Leaf(token) => [token]
    case Sequence(closed, children) => [Head(item)] + AllTokens(children) + (if closed then [] else [Break])
    case Mapping(closed, children) => [Head(item)] + AllTokens(children) + (if closed then [] else [Break])
    case Tagged(_, content) => [Head(item)] + Tokens(content)
  }

  function AllTokens(items: seq<Item>): seq<Token>
    decreases items, 0
  {
    if items == [] then [] else Tokens(items[0]) + AllTokens(items[1..])
  }

  /** Containers and tags nest at most this deep. */
  function Depth(item: Item): nat
    decreases item, 1
  {
    match item
    case Leaf(_) => 0
    case Sequence(_, children) => 1 + MaxDepth(children)
    case Mapping(_, children) => 1 + MaxDepth(children)
    case Tagged(_, content) => 1 + Depth(content)
  }

  function MaxDepth(items: seq<Item>): nat
    decreases items, 0
  {
    if items == [] then 0 else Max(Depth(items[0]), MaxDepth(items[1..]))
  }

  /** Number of items in the tree, the tree itself included. */
  function Size(item: Item): nat
    decreases item, 1
  {
    match item
    case Leaf(_) => 1
    case Sequence(_, children) => 1 + TotalSize(children)
    case Mapping(_, children) => 1 + TotalSize(children)
    case Tagged(_, content) => 1 + Size(content)
  }

  function TotalSize(items: seq<Item>): nat
    decreases items, 0
  {
    if items == [] then 0 else Size(items[0]) + TotalSize(items[1..])
  }

  /** The nodes the pass counts: every token but a break. */
  function NodeCount(tokens: seq<Token>): nat {
    if tokens == [] then 0 else NodeCount(tokens[..|tokens| - 1]) + (if tokens[|tokens| - 1].Break? then 0 else 1)
  }

  // ----- the pass

  /** A container that is still open: how many values it still takes, if that is declared. */
  datatype Budget = Budget(remaining: Option<nat>, bignum: bool)

  function Collapse(stack: seq<Budget>): seq<Budget> {
    if stack != [] && stack[|stack| - 1].remaining == Some(0) then Collapse(stack[..|stack| - 1]) else stack
  }

  function Spend(b: Budget): Budget {
    if b.remaining.None? || b.remaining.value == 0 then b else b.(remaining := Some(b.remaining.value - 1))
  }

  datatype State = State(stack: seq<Budget>, roots: nat)

  /** The container a token opens, if its declared size is legal. */
  function Opens(token: Token): Option<Budget> {
    match token
    case Array(Definite(n)) => Some(Budget(Some(n), false))
    case Array(Indefinite) => Some(Budget(None, false))
    case Map(Definite(n)) => Some(Budget(Some(2 * n), false))
    case Map(Indefinite) => Some(Budget(None, false))
    case Tag(number) => Some(Budget(Some(1), IsBignum(number)))
    case _ => None
  }

  predicate LegalLength(token: Token) {
    match token
    case Array(Definite(n)) => n <= MAX_SAFE_INTEGER
    case Map(Definite(n)) => n <= MAX_SAFE_INTEGER
    case _ => true
  }

  /** One token; None when the stream is refused.  The node budget is checked separately. */
  function Next(s: State, token: Token, maxDepth: nat): Option<State> {
    var n := |s.stack|;
    if token.Break? then
      if n == 0 || s.stack[n - 1].remaining.Some? then None
      else Some(s.(stack := Collapse(s.stack[..n - 1])))
    else if n > 0 && s.stack[n - 1].bignum && !(token.ByteString? && token.length <= MAX_SMP_CBOR_BIGNUM_BYTES) then None
    else if n == 0 && s.roots >= 1 then None
    else if n > 0 && s.stack[n - 1].remaining == Some(0) then None
    else if !LegalLength(token) then None
    else
      var spent := if n == 0 then [] else s.stack[..n - 1] + [Spend(s.stack[n - 1])];
      var roots := if n == 0 then s.roots + 1 else s.roots;
      var container := Opens(token);
      if container.None? then Some(State(Collapse(spent), roots))
      else if n + 1 > maxDepth then None
      else Some(State(Collapse(spent + [container.value]), roots))
  }

  function Run(s: State, tokens: seq<Token>, maxDepth: nat): Option<State> {
    if tokens == [] then Some(s)
    else
      var before := Run(s, tokens[..|tokens| - 1], maxDepth);
      if before.None? then None else Next(before.value, tokens[|tokens| - 1], maxDepth)
  }

  predicate Accepted(tokens: seq<Token>, maxDepth: nat, maxNodes: nat) {
    NodeCount(tokens) <= maxNodes && Run(State([], 0), tokens, maxDepth) == Some(State([], 1))
  }

  /** The source's loop over the tokenizer. */
  method Preflight(tokens: seq<Token>, maxDepth: nat, maxNodes: nat) returns (ok: bool)
    ensures ok == Accepted(tokens, maxDepth, maxNodes)
  {
    var stack: seq<Budget> := [];
    var nodes, roots := 0, 0;
    for i := 0 to |tokens|
      invariant Run(State([], 0), tokens[..i], maxDepth) == Some(State(stack, roots))
      invariant nodes == NodeCount(tokens[..i]) <= maxNodes
    {
      var token := tokens[i];
      assert tokens[..i + 1][..i] == tokens[..i];
      NodeCountGrows(tokens, i + 1);
      RunFailsOnce(State([], 0), tokens, i + 1, maxDepth);
      ghost var before := State(stack, roots);
      if token.Break? {
        if |stack| == 0 || stack[|stack| - 1].remaining.Some? { return false; }
        stack := CollapseCompletedContainers(stack[..|stack| - 1]);
        continue;
      }
      if |stack| > 0 && stack[|stack| - 1].bignum {
        if !token.ByteString? || token.length > MAX_SMP_CBOR_BIGNUM_BYTES { return false; }
      }
      nodes := nodes + 1;
      if nodes > maxNodes { return false; }
      if |stack| == 0 {
        roots := roots + 1;
        if roots > 1 { return false; }
      } else {
        if stack[|stack| - 1].remaining == Some(0) { return false; }
        stack := stack[..|stack| - 1] + [Spend(stack[|stack| - 1])];
      }
      if !LegalLength(token) { return false; }
      var container := Opens(token);
      if container.Some? {
        stack := stack + [container.value];
        if |stack| > maxDepth { return false; }
      }
      stack := CollapseCompletedContainers(stack);
    }
    assert tokens[..|tokens|] == tokens;
    if roots != 1 { return false; }
    if |stack| > 0 { return false; }
    return true;
  }

  method CollapseCompletedContainers(stack: seq<Budget>) returns (open: seq<Budget>)
    ensures open == Collapse(stack)
  {
    open := stack;
    while |open| > 0 && open[|open| - 1].remaining == Some(0)
      invariant Collapse(open) == Collapse(stack)
    {
      open := open[..|open| - 1];
    }
  }

  lemma {:induction false} NodeCountGrows(tokens: seq<Token>, i: nat)
    requires i <= |tokens|
    ensures NodeCount(tokens[..i]) <= NodeCount(tokens)
    decreases |tokens|
  {
    if i < |tokens| {
      assert tokens[..|tokens| - 1][..i] == tokens[..i];
      NodeCountGrows(tokens[..|tokens| - 1], i);
    } else {
      assert tokens[..i] == tokens;
    }
  }

  lemma {:induction false} RunFailsOnce(s: State, tokens: seq<Token>, i: nat, maxDepth: nat)
    requires i <= |tokens|
    ensures Run(s, tokens[..i], maxDepth).None? ==> Run(s, tokens, maxDepth).None?
    decreases |tokens|
  {
    if i < |tokens| {
      assert tokens[..|tokens| - 1][..i] == tokens[..i];
      RunFailsOnce(s, tokens[..|tokens| - 1], i, maxDepth);
    } else {
      assert tokens[..i] == tokens;
    }
  }

  lemma {:induction false} RunConcat(s: State, a: seq<Token>, b: seq<Token>, maxDepth: nat)
    ensures Run(s, a + b, maxDepth) == if Run(s, a, maxDepth).None? then None else Run(Run(s, a, maxDepth).value, b, maxDepth)
    decreases |b|
  {
    hide Next;
    if b == [] {
      assert a + b == a;
    } else {
      assert (a + b)[..|a + b| - 1] == a + b[..|b| - 1];
      RunConcat(s, a, b[..|b| - 1], maxDepth);
    }
  }

  // ----- every well-formed tree gets through

  /** The state once a value has been taken by the innermost open container, or as the root. */
  function Taken(s: State): State {
    var n := |s.stack|;
    if n == 0 then State([], s.roots + 1) else s.(stack := Collapse(s.stack[..n - 1] + [Spend(s.stack[n - 1])]))
  }

  /** The innermost open container, or the root, takes this item. */
  predicate Admits(s: State, item: Item) {
    var n := |s.stack|;
    if n == 0 then s.roots == 0
    else s.stack[n - 1].remaining != Some(0) && (s.stack[n - 1].bignum ==> ShortBytes(item))
  }

  lemma {:induction false} TreeRuns(s: State, item: Item, maxDepth: nat)
    requires WellFormed(item) && Admits(s, item) && |s.stack| + Depth(item) <= maxDepth
    ensures Run(s, Tokens(item), maxDepth) == Some(Taken(s))
    decreases item, 1
  {
    hide Next, Run, Collapse;
    OneToken(s, Head(item), maxDepth);
    HeadRuns(s, item, maxDepth);
    if !item.Leaf? {
      var spent, roots := Spent(s), Taken(s).roots;
      var budget := Opens(Head(item)).value;
      var inside := State(Collapse(spent + [budget]), roots);
      var content := if item.Tagged? then Tokens(item.content) else AllTokens(item.children);
      if item.Tagged? {
        CollapseTop(spent, budget);
        TreeRuns(inside, item.content, maxDepth);
      } else {
        TreesRun(spent, budget, roots, item.children, maxDepth);
      }
      var finished := budget.(remaining := if budget.remaining.None? then None else Some(0));
      assert Run(inside, content, maxDepth) == Some(State(Collapse(spent + [finished]), roots));
      CollapseTop(spent, finished);
      RunConcat(s, [Head(item)], content, maxDepth);
      if !item.Tagged? && !item.closed {
        RunConcat(s, [Head(item)] + content, [Break], maxDepth);
        OneToken(State(spent + [finished], roots), Break, maxDepth);
        BreakCloses(spent, finished, roots, maxDepth);
      } else {
        assert [Head(item)] + content + [] == [Head(item)] + content;
      }
    }
  }

  lemma {:induction false} TreesRun(base: seq<Budget>, budget: Budget, roots: nat, items: seq<Item>, maxDepth: nat)
    requires (forall i | i in items :: WellFormed(i)) && !budget.bignum
    requires budget.remaining.None? || budget.remaining == Some(|items|)
    requires |base| + 1 + MaxDepth(items) <= maxDepth
    ensures var finished := budget.(remaining := if budget.remaining.None? then None else Some(0));
            Run(State(Collapse(base + [budget]), roots), AllTokens(items), maxDepth) == Some(State(Collapse(base + [finished]), roots))
    decreases items, 0
  {
    hide Next, Run, Collapse;
    var s := State(Collapse(base + [budget]), roots);
    NoTokens(s, maxDepth);
    if items != [] {
      CollapseTop(base, budget);
      assert (base + [budget])[..|base|] == base;
      TreeRuns(s, items[0], maxDepth);
      TreesRun(base, Spend(budget), roots, items[1..], maxDepth);
      RunConcat(s, Tokens(items[0]), AllTokens(items[1..]), maxDepth);
    }
  }

  /** The stack with a slot of its innermost container used up. */
  function Spent(s: State): seq<Budget> {
    var n := |s.stack|;
    if n == 0 then [] else s.stack[..n - 1] + [Spend(s.stack[n - 1])]
  }

  /** The first token of an item: all of a leaf, the opening of a container. */
  lemma HeadRuns(s: State, item: Item, maxDepth: nat)
    requires WellFormed(item) && Admits(s, item) && |s.stack| + Depth(item) <= maxDepth
    ensures Taken(s) == State(Collapse(Spent(s)), Taken(s).roots)
    ensures var container := Opens(Head(item));
            && (item.Leaf? <==> container.None?)
            && Next(s, Head(item), maxDepth) ==
               Some(if item.Leaf? then Taken(s) else State(Collapse(Spent(s) + [container.value]), Taken(s).roots))
  {
    hide Collapse, Spend, MaxDepth;
    CollapseNothing();
  }

  lemma CollapseNothing()
    ensures Collapse([]) == []
  {
  }

  lemma CollapseTop(base: seq<Budget>, budget: Budget)
    ensures Collapse(base + [budget]) == if budget.remaining == Some(0) then Collapse(base) else base + [budget]
  {
    assert (base + [budget])[..|base|] == base;
  }

  lemma BreakCloses(base: seq<Budget>, budget: Budget, roots: nat, maxDepth: nat)
    requires budget.remaining.None?
    ensures Next(State(base + [budget], roots), Break, maxDepth) == Some(State(Collapse(base), roots))
  {
    assert (base + [budget])[..|base|] == base;
  }

  lemma NoTokens(s: State, maxDepth: nat)
    ensures Run(s, [], maxDepth) == Some(s)
  {
  }

  lemma OneToken(s: State, token: Token, maxDepth: nat)
    ensures Run(s, [token], maxDepth) == Next(s, token, maxDepth)
  {
    assert [token][..0] == [];
  }

  // ----- and nothing else does: the tree can be read off the tokens

  /** An open container of the tree under construction, with the children it already has. */
  datatype Open = Open(head: Token, children: seq<Item>)

  function ZipTokens(open: seq<Open>): seq<Token> {
    if open == [] then []
    else
      var last := open[|open| - 1];
      ZipTokens(open[..|open| - 1]) + ([last.head] + AllTokens(last.children))
  }

  predicate Opening(token: Token) {
    Opens(token).Some? && LegalLength(token)
  }

  /** The budget of an open container that already has these children, and `busy` more under construction. */
  predicate Fits(b: Budget, o: Open, busy: nat) {
    Opening(o.head)
    && var declared := Opens(o.head).value;
       && b.bignum == declared.bignum
       && (if declared.remaining.None? then b.remaining.None?
           else b.remaining.Some? && b.remaining.value + |o.children| + busy == declared.remaining.value)
  }

  predicate GoodChildren(o: Open, level: nat, maxDepth: nat) {
    && level + 1 <= maxDepth
    && (forall c | c in o.children :: WellFormed(c) && level + 1 + Depth(c) <= maxDepth)
    && (Opens(o.head).Some? && Opens(o.head).value.bignum ==> forall c | c in o.children :: ShortBytes(c))
  }

  /** Every open container is waiting for the one above it; only the last can be a bignum tag, waiting for its bytes. */
  predicate Busy(stack: seq<Budget>, open: seq<Open>, maxDepth: nat) {
    && |stack| == |open| && (forall i | 0 <= i < |stack| - 1 :: !stack[i].bignum)
    && forall i | 0 <= i < |open| :: Fits(stack[i], open[i], 1) && GoodChildren(open[i], i, maxDepth)
  }

  /** Every open container but the last is waiting for the one above it; the last one takes more values. */
  predicate Waiting(stack: seq<Budget>, open: seq<Open>, maxDepth: nat) {
    var n := |open| - 1;
    && open != [] && |stack| == |open| && Busy(stack[..n], open[..n], maxDepth) && (forall i | 0 <= i < n :: !stack[i].bignum)
    && Fits(stack[n], open[n], 0) && GoodChildren(open[n], n, maxDepth) && stack[n].remaining != Some(0)
  }

  function Close(o: Open, closed: bool): Item
    requires Opening(o.head) && (o.head.Tag? ==> |o.children| == 1)
  {
    match o.head
    case Array(_) => Sequence(closed, o.children)
    case Map(_) => Mapping(closed, o.children)
    case Tag(number) => Tagged(number, o.children[0])
  }

  predicate Full(o: Open) {
    Opening(o.head) && Opens(o.head).value.remaining == Some(|o.children|) && (o.head.Tag? ==> |o.children| == 1)
  }

  function Grown(o: Open, item: Item): Open {
    o.(children := o.children + [item])
  }

  datatype Built = Rooted(item: Item) | Growing(open: seq<Open>)

  /** A new item goes to the innermost open container; full containers are closed and go to theirs. */
  function Attach(open: seq<Open>, item: Item): Built {
    if open == [] then Rooted(item)
    else
      var n := |open| - 1;
      var o := Grown(open[n], item);
      if Full(o) then Attach(open[..n], Close(o, true))
      else Growing(open[..n] + [o])
  }

  predicate Represents(built: Built, stack: seq<Budget>, tokens: seq<Token>, maxDepth: nat) {
    match built
    case Rooted(item) => stack == [] && WellFormed(item) && Depth(item) <= maxDepth && tokens == Tokens(item)
    case Growing(open) => Waiting(stack, open, maxDepth) && tokens == ZipTokens(open)
  }

  lemma {:induction false} AllTokensAppend(items: seq<Item>, item: Item)
    ensures AllTokens(items + [item]) == AllTokens(items) + Tokens(item)
  {
    if items == [] {
      assert [item][1..] == [] && [] + [item] == [item];
    } else {
      assert (items + [item])[1..] == items[1..] + [item];
      AllTokensAppend(items[1..], item);
    }
  }

  lemma {:induction false} DepthBound(items: seq<Item>, bound: nat)
    requires forall c | c in items :: Depth(c) <= bound
    ensures MaxDepth(items) <= bound
  {
    if items != [] {
      assert items[0] in items;
      DepthBound(items[1..], bound);
    }
  }

  /** A container that has all its values is a well-formed item. */
  lemma CloseGood(o: Open, level: nat, maxDepth: nat, closed: bool)
    requires Opening(o.head) && GoodChildren(o, level, maxDepth)
    requires Opens(o.head).value.remaining == if closed then Some(|o.children|) else None
    ensures o.head.Tag? ==> |o.children| == 1
    ensures WellFormed(Close(o, closed)) && level + Depth(Close(o, closed)) <= maxDepth
    ensures Tokens(Close(o, closed)) == [o.head] + AllTokens(o.children) + (if closed then [] else [Break])
  {
    if o.head.Tag? {
      assert o.children[0] in o.children;
      assert o.children == [o.children[0]];
      AllTokensAppend([], o.children[0]);
      assert [] + [o.children[0]] == o.children;
      assert Tokens(o.children[0]) + [] == Tokens(o.children[0]);
    } else {
      DepthBound(o.children, maxDepth - level - 1);
    }
  }

  /** Attaching an item to the tree is what spending and collapsing the budgets amounts to. */
  lemma {:induction false} AttachKeeps(stack: seq<Budget>, open: seq<Open>, item: Item, maxDepth: nat)
    requires Busy(stack, open, maxDepth) && WellFormed(item) && |open| + Depth(item) <= maxDepth
    requires open != [] && stack[|stack| - 1].bignum ==> ShortBytes(item)
    ensures Represents(Attach(open, item), Collapse(stack), ZipTokens(open) + Tokens(item), maxDepth)
    decreases |open|
  {
    hide Tokens, WellFormed, Depth, Waiting, Busy, Full, Grown, ZipTokens;
    if open == [] {
      assert stack == [] by { BusyLength(stack, open, maxDepth); }
      NothingZipped(item);
    } else {
      var n := |open| - 1;
      BusyLength(stack, open, maxDepth);
      BusyBelow(stack, open, maxDepth);
      TopGrown(stack, open, item, maxDepth);
      AttachTop(open, item);
      var o := Grown(open[n], item);
      if stack[n].remaining == Some(0) {
        ZipClosed(open, item, n, maxDepth);
        AttachKeeps(stack[..n], open[..n], Close(o, true), maxDepth);
      } else {
        ZipGrown(open, item);
        WaitingOn(stack[..n], open[..n], stack[n], o, maxDepth);
        assert stack[..n] + [stack[n]] == stack;
      }
    }
  }

  lemma BusyLength(stack: seq<Budget>, open: seq<Open>, maxDepth: nat)
    requires Busy(stack, open, maxDepth)
    ensures |stack| == |open|
  {
  }

  lemma NothingZipped(item: Item)
    ensures ZipTokens([]) + Tokens(item) == Tokens(item)
  {
  }

  /** The innermost container with the item in it: full when its budget is used up. */
  lemma TopGrown(stack: seq<Budget>, open: seq<Open>, item: Item, maxDepth: nat)
    requires Busy(stack, open, maxDepth) && open != [] && |stack| == |open|
    requires WellFormed(item) && |open| + Depth(item) <= maxDepth && (stack[|stack| - 1].bignum ==> ShortBytes(item))
    ensures var n := |open| - 1; var o := Grown(open[n], item);
            && Opening(o.head) && Fits(stack[n], o, 0) && GoodChildren(o, n, maxDepth)
            && (stack[n].remaining == Some(0) <==> Full(o))
  {
    hide WellFormed, Depth, GoodChildren, ShortBytes;
    var n := |open| - 1;
    assert Fits(stack[n], open[n], 1) && GoodChildren(open[n], n, maxDepth);
    GrownGood(open[n], item, n, maxDepth);
  }

  lemma AttachTop(open: seq<Open>, item: Item)
    requires open != []
    ensures var n := |open| - 1; var o := Grown(open[n], item);
            Attach(open, item) == if Full(o) then Attach(open[..n], Close(o, true)) else Growing(open[..n] + [o])
  {
  }

  lemma ZipSnoc(open: seq<Open>, o: Open)
    ensures ZipTokens(open + [o]) == ZipTokens(open) + ([o.head] + AllTokens(o.children))
  {
    hide AllTokens;
    assert (open + [o])[..|open|] == open;
  }

  lemma Regroup(a: seq<Token>, b: seq<Token>, c: seq<Token>, d: seq<Token>)
    ensures (a + (b + c)) + d == a + (b + (c + d))
  {
  }

  lemma ZipGrown(open: seq<Open>, item: Item)
    requires open != []
    ensures var n := |open| - 1; var o := Grown(open[n], item);
            && ZipTokens(open) + Tokens(item) == ZipTokens(open[..n]) + ([o.head] + AllTokens(o.children))
            && ZipTokens(open[..n] + [o]) == ZipTokens(open) + Tokens(item)
  {
    hide Tokens, AllTokens, ZipTokens;
    var n := |open| - 1;
    var below, last := open[..n], open[n];
    assert below + [last] == open;
    ZipSnoc(below, last);
    ZipSnoc(below, Grown(last, item));
    AllTokensAppend(last.children, item);
    Regroup(ZipTokens(below), [last.head], AllTokens(last.children), Tokens(item));
  }

  lemma ZipClosed(open: seq<Open>, item: Item, level: nat, maxDepth: nat)
    requires open != [] && level == |open| - 1
    requires var o := Grown(open[level], item); Full(o) && GoodChildren(o, level, maxDepth)
    ensures var closed := Close(Grown(open[level], item), true);
            && WellFormed(closed) && level + Depth(closed) <= maxDepth && !ShortBytes(closed)
            && ZipTokens(open) + Tokens(item) == ZipTokens(open[..level]) + Tokens(closed)
  {
    hide WellFormed, Depth, GoodChildren, Tokens, AllTokens, ZipTokens, Grown;
    var o := Grown(open[level], item);
    ZipGrown(open, item);
    CloseGood(o, level, maxDepth, true);
    assert [o.head] + AllTokens(o.children) + [] == [o.head] + AllTokens(o.children);
  }

  lemma BusyBelow(stack: seq<Budget>, open: seq<Open>, maxDepth: nat)
    requires Busy(stack, open, maxDepth) && open != []
    ensures Busy(stack[..|open| - 1], open[..|open| - 1], maxDepth)
    ensures |open| > 1 ==> !stack[|open| - 2].bignum
  {
    hide Fits, GoodChildren;
  }

  lemma GrownGood(o: Open, item: Item, level: nat, maxDepth: nat)
    requires GoodChildren(o, level, maxDepth) && WellFormed(item) && level + 1 + Depth(item) <= maxDepth
    requires Opens(o.head).Some? && Opens(o.head).value.bignum ==> ShortBytes(item)
    ensures GoodChildren(o.(children := o.children + [item]), level, maxDepth)
  {
    hide WellFormed, Depth;
  }

  /** What a prefix of an accepted stream has built: nothing yet, a tree under construction, or a complete item. */
  lemma {:induction false} TreeFound(tokens: seq<Token>, maxDepth: nat) returns (built: Built)
    requires Run(State([], 0), tokens, maxDepth).Some? && tokens != []
    ensures var s := Run(State([], 0), tokens, maxDepth).value;
            s.roots == 1 && Represents(built, s.stack, tokens, maxDepth)
    decreases |tokens|
  {
    hide Next, Represents;
    var n := |tokens| - 1;
    var prefix, token := tokens[..n], tokens[n];
    assert tokens == prefix + [token];
    var before := Run(State([], 0), prefix, maxDepth).value;
    if prefix == [] {
      built := Extend(before, Growing([]), prefix, token, maxDepth);
    } else {
      built := TreeFound(prefix, maxDepth);
      RootedStops(before, built, prefix, token, maxDepth);
      built := Extend(before, built, prefix, token, maxDepth);
    }
  }

  lemma RootedStops(s: State, built: Built, tokens: seq<Token>, token: Token, maxDepth: nat)
    requires s.roots == 1 && Represents(built, s.stack, tokens, maxDepth) && Next(s, token, maxDepth).Some?
    ensures built.Growing? && built.open != []
  {
  }

  /** The tree grows with every token the pass lets through. */
  lemma Extend(s: State, built: Built, tokens: seq<Token>, token: Token, maxDepth: nat) returns (next: Built)
    requires built.Growing? && Next(s, token, maxDepth).Some?
    requires if built.open == [] then s == State([], 0) && tokens == [] else s.roots == 1 && Represents(built, s.stack, tokens, maxDepth)
    ensures var t := Next(s, token, maxDepth).value;
            t.roots == 1 && Represents(next, t.stack, tokens + [token], maxDepth)
  {
    var open := built.open;
    if token.Break? {
      next := ExtendBreak(s, open, maxDepth);
    } else {
      SpentBusy(s, open, maxDepth);
      var container := Opens(token);
      if container.None? {
        next := Attach(open, Leaf(token));
        AttachKeeps(Spent(s), open, Leaf(token), maxDepth);
      } else {
        next := ExtendContainer(s, open, token, maxDepth);
      }
    }
  }

  /** Using up a slot of the innermost container makes it wait like the others. */
  lemma SpentBusy(s: State, open: seq<Open>, maxDepth: nat)
    requires if open == [] then s.stack == [] else Waiting(s.stack, open, maxDepth)
    ensures Busy(Spent(s), open, maxDepth)
  {
    hide GoodChildren;
    var n := |open| - 1;
    if n >= 0 {
      var spent := Spent(s);
      forall i | 0 <= i < |open| ensures Fits(spent[i], open[i], 1) && GoodChildren(open[i], i, maxDepth) {
        if i < n { assert Fits(s.stack[..n][i], open[..n][i], 1) && GoodChildren(open[..n][i], i, maxDepth); }
      }
    }
  }

  lemma ExtendBreak(s: State, open: seq<Open>, maxDepth: nat) returns (next: Built)
    requires open != [] && s.roots == 1 && Waiting(s.stack, open, maxDepth) && Next(s, Break, maxDepth).Some?
    ensures var t := Next(s, Break, maxDepth).value;
            t.roots == 1 && Represents(next, t.stack, ZipTokens(open) + [Break], maxDepth)
  {
    hide Tokens, AllTokens, WellFormed, Depth, Collapse;
    var n := |open| - 1;
    CloseGood(open[n], n, maxDepth, false);
    var item := Close(open[n], false);
    next := Attach(open[..n], item);
    assert ZipTokens(open) + [Break] == ZipTokens(open[..n]) + Tokens(item);
    AttachKeeps(s.stack[..n], open[..n], item, maxDepth);
  }

  lemma ExtendContainer(s: State, open: seq<Open>, token: Token, maxDepth: nat) returns (next: Built)
    requires Opens(token).Some? && Next(s, token, maxDepth).Some? && |s.stack| == |open|
    requires (if open == [] then s.roots == 0 else s.roots == 1 && !s.stack[|open| - 1].bignum) && Busy(Spent(s), open, maxDepth)
    ensures var t := Next(s, token, maxDepth).value;
            t.roots == 1 && Represents(next, t.stack, ZipTokens(open) + [token], maxDepth)
  {
    hide Tokens, AllTokens, WellFormed, Depth, Collapse, Waiting, Busy;
    var container, o := Opens(token).value, Open(token, []);
    var spent := Spent(s);
    CollapseTop(spent, container);
    NoChildren();
    if container.remaining == Some(0) {
      CloseGood(o, |open|, maxDepth, true);
      var item := Close(o, true);
      next := Attach(open, item);
      assert Tokens(item) == [token];
      AttachKeeps(spent, open, item, maxDepth);
    } else {
      next := Growing(open + [o]);
      PushWaits(spent, open, o, maxDepth);
    }
  }

  lemma PushWaits(spent: seq<Budget>, open: seq<Open>, o: Open, maxDepth: nat)
    requires Busy(spent, open, maxDepth) && (spent != [] ==> !spent[|spent| - 1].bignum)
    requires Opening(o.head) && o.children == [] && Opens(o.head).value.remaining != Some(0) && |open| + 1 <= maxDepth
    ensures Waiting(spent + [Opens(o.head).value], open + [o], maxDepth)
    ensures ZipTokens(open + [o]) == ZipTokens(open) + [o.head]
  {
    hide WellFormed, Depth, Tokens, Waiting, Busy, AllTokens, ZipTokens;
    NoChildren();
    BusyLength(spent, open, maxDepth);
    ZipSnoc(open, o);
    WaitingOn(spent, open, Opens(o.head).value, o, maxDepth);
    assert [o.head] + [] == [o.head];
  }

  /** Any budget that still takes values may come on top of busy ones. */
  lemma WaitingOn(base: seq<Budget>, open: seq<Open>, b: Budget, o: Open, maxDepth: nat)
    requires Busy(base, open, maxDepth) && (base != [] ==> !base[|base| - 1].bignum)
    requires Fits(b, o, 0) && GoodChildren(o, |open|, maxDepth) && b.remaining != Some(0)
    ensures Waiting(base + [b], open + [o], maxDepth)
  {
    hide Fits, GoodChildren;
    assert (base + [b])[..|open|] == base && (open + [o])[..|open|] == open;
  }

  lemma NoChildren()
    ensures AllTokens([]) == [] && MaxDepth([]) == 0
  {
  }

  lemma {:induction false} NodeCountConcat(a: seq<Token>, b: seq<Token>)
    ensures NodeCount(a + b) == NodeCount(a) + NodeCount(b)
    decreases |b|
  {
    if b == [] {
      assert a + b == a;
    } else {
      assert (a + b)[..|a + b| - 1] == a + b[..|b| - 1];
      NodeCountConcat(a, b[..|b| - 1]);
    }
  }

  lemma NodeCountOne(token: Token)
    ensures NodeCount([token]) == if token.Break? then 0 else 1
    ensures NodeCount([]) == 0
  {
    assert [token][..0] == [];
  }

  /** Counting tokens is counting the items of the tree. */
  lemma {:induction false} NodesAreItems(item: Item)
    requires WellFormed(item)
    ensures NodeCount(Tokens(item)) == Size(item)
    decreases item, 1
  {
    hide NodeCount;
    NodeCountOne(Head(item));
    NodeCountOne(Break);
    match item
    case Leaf(_) =>
    case Sequence(closed, children) =>
      ContainerNodes(Head(item), children, closed);
    case Mapping(closed, children) =>
      ContainerNodes(Head(item), children, closed);
    case Tagged(_, content) =>
      NodesAreItems(content);
      NodeCountConcat([Head(item)], Tokens(content));
  }

  lemma {:induction false} ContainerNodes(head: Token, children: seq<Item>, closed: bool)
    requires !head.Break? && forall c | c in children :: WellFormed(c)
    ensures NodeCount([head] + AllTokens(children) + (if closed then [] else [Break])) == 1 + TotalSize(children)
    decreases children, 1
  {
    hide NodeCount, Tokens, WellFormed, Size;
    NodeCountOne(head);
    NodeCountOne(Break);
    ChildNodes(children);
    NodeCountConcat([head], AllTokens(children));
    NodeCountConcat([head] + AllTokens(children), if closed then [] else [Break]);
  }

  lemma {:induction false} ChildNodes(items: seq<Item>)
    requires forall c | c in items :: WellFormed(c)
    ensures NodeCount(AllTokens(items)) == TotalSize(items)
    decreases items, 0
  {
    hide NodeCount, Tokens, WellFormed, Size;
    if items == [] {
      NodeCountOne(Break);
    } else {
      NodesAreItems(items[0]);
      ChildNodes(items[1..]);
      NodeCountConcat(Tokens(items[0]), AllTokens(items[1..]));
    }
  }

  /** The stream flattens one complete item that nests within the limit and has no more items than allowed. */
  ghost predicate OneItem(tokens: seq<Token>, maxDepth: nat, maxNodes: nat) {
    exists item :: WellFormed(item) && Depth(item) <= maxDepth && Size(item) <= maxNodes && Tokens(item) == tokens
  }

  /** The pass lets a stream through exactly when it is one complete, well-formed item within both limits. */
  lemma AcceptedIffOneItem(tokens: seq<Token>, maxDepth: nat, maxNodes: nat)
    ensures Accepted(tokens, maxDepth, maxNodes) <==> OneItem(tokens, maxDepth, maxNodes)
  {
    hide WellFormed, Depth, Tokens, Next, Size, NodeCount;
    if OneItem(tokens, maxDepth, maxNodes) {
      var item :| WellFormed(item) && Depth(item) <= maxDepth && Size(item) <= maxNodes && Tokens(item) == tokens;
      TreeRuns(State([], 0), item, maxDepth);
      NodesAreItems(item);
    }
    if Accepted(tokens, maxDepth, maxNodes) {
      var built := TreeFound(tokens, maxDepth);
      assert built.Rooted?;
      NodesAreItems(built.item);
    }
  }
}
