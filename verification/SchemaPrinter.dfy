/** The nested schema printer of `carquet schema`: a flat preorder list is walked with a stack of
    remaining-children counters. */
module SchemaPrinter {
  datatype Node = Leaf(text: string) | Group(text: string, children: seq<Node>)

  /** A schema element as stored: groups say how many of the following elements are their children. */
  datatype Element = Element(isLeaf: bool, text: string, numChildren: int)

  /** A printed line, with its indentation. */
  datatype Line = LeafLine(depth: nat, text: string) | OpenLine(depth: nat, text: string) | CloseLine(depth: nat)

  function Preorder(ts: seq<Node>): seq<Element>
  {
    if ts == [] then []
    else
      match ts[0]
      case Leaf(text) => [Element(true, text, 0)] + Preorder(ts[1..])
      case Group(text, children) => [Element(false, text, |children|)] + Preorder(children) + Preorder(ts[1..])
  }

  /** The nested rendering that the output is meant to be. */
  function Render(ts: seq<Node>, depth: nat): seq<Line>
  {
    if ts == [] then []
    else
      match ts[0]
      case Leaf(text) => [LeafLine(depth, text)] + Render(ts[1..], depth)
      case Group(text, children) =>
        [OpenLine(depth, text)] + Render(children, depth + 1) + [CloseLine(depth)] + Render(ts[1..], depth)
  }

  const MAX_DEPTH := 63

  /** Every group has a child, and is met before the stack is full. */
  predicate Printable(ts: seq<Node>, depth: nat)
  {
    ts == [] ||
    ((ts[0].Group? ==> ts[0].children != [] && depth < MAX_DEPTH && Printable(ts[0].children, depth + 1)) &&
     Printable(ts[1..], depth))
  }

  /** How many groups are nested in each other. */
  function Height(ts: seq<Node>): nat
  {
    if ts == [] then 0
    else if ts[0].Leaf? then Height(ts[1..])
    else Max(1 + Height(ts[0].children), Height(ts[1..]))
  }

  function Max(a: nat, b: nat): (m: nat)
    ensures m >= a && m >= b && (m == a || m == b)
  {
    if a < b then b else a
  }

  predicate NoEmptyGroup(ts: seq<Node>)
  {
    ts == [] ||
    ((ts[0].Group? ==> ts[0].children != [] && NoEmptyGroup(ts[0].children)) && NoEmptyGroup(ts[1..]))
  }

  /** The groups of a tree lie below each other, so the innermost decides. */
  lemma {:induction false} PrintableHeight(ts: seq<Node>, depth: nat)
    ensures depth <= 63 ==> (Printable(ts, depth) <==> NoEmptyGroup(ts) && depth + Height(ts) <= 63)
    decreases ts
  {
    if ts != [] {
      PrintableHeight(ts[1..], depth);
      if ts[0].Group? {
        PrintableHeight(ts[0].children, depth + 1);
      }
    }
  }

  /** `n` groups inside each other, with a leaf in the innermost. */
  function Chain(n: nat): seq<Node>
  {
    if n == 0 then [Leaf("leaf")] else [Group("group", Chain(n - 1))]
  }

  lemma {:induction false} ChainHeight(n: nat)
    ensures Height(Chain(n)) == n && NoEmptyGroup(Chain(n))
  {
    if n > 0 {
      ChainHeight(n - 1);
    }
  }

  // ---- the walk ----

  function Decremented(stack: seq<int>): (r: seq<int>)
    requires stack != []
    ensures |r| == |stack|
  {
    stack[|stack| - 1 := stack[|stack| - 1] - 1]
  }

  /** What a walk prints, and the counters it ends with. */
  datatype Printed = Printed(lines: seq<Line>, stack: seq<int>)

  function After(lines: seq<Line>, p: Printed): Printed
  {
    Printed(lines + p.lines, p.stack)
  }

  lemma AfterAfter(a: seq<Line>, b: seq<Line>, p: Printed)
    ensures After(a, After(b, p)) == After(a + b, p)
  {
    assert a + (b + p.lines) == a + b + p.lines;
  }

  /** The lines printed for the remaining elements, with these counters on the stack. */
  function Walk(elems: seq<Element>, stack: seq<int>): (p: Printed)
    requires stack != []
    ensures p.stack != []
    decreases |elems|, 0
  {
    if elems == [] then Printed([], stack)
    else if elems[0].isLeaf then
      After([LeafLine(|stack|, elems[0].text)], Close(elems[1..], Decremented(stack)))
    else
      After([OpenLine(|stack|, elems[0].text)],
            Walk(elems[1..], if |stack| < MAX_DEPTH then stack + [elems[0].numChildren] else stack))
  }

  /** The same after an element is complete: groups whose counter has come to zero are closed first. */
  function Close(elems: seq<Element>, stack: seq<int>): (p: Printed)
    requires stack != []
    ensures p.stack != []
    decreases |elems|, |stack|
  {
    if |stack| > 1 && stack[|stack| - 1] == 0 then
      After([CloseLine(|stack| - 1)], Close(elems, Decremented(stack[..|stack| - 1])))
    else Walk(elems, stack)
  }

  /** Close the groups whose counter has come to zero. */
  method CloseGroups(depthStack: array<int>, depth0: nat, ghost rest: seq<Element>) returns (depth: nat, out: seq<Line>)
    requires 1 <= depth0 <= depthStack.Length
    modifies depthStack
    ensures 1 <= depth <= depth0
    ensures After(out, Walk(rest, depthStack[..depth])) == Close(rest, old(depthStack[..depth0]))
  {
    hide Walk;
    depth, out := depth0, [];
    while depth > 1 && depthStack[depth - 1] == 0
      invariant 1 <= depth <= depth0
      invariant After(out, Close(rest, depthStack[..depth])) == Close(rest, old(depthStack[..depth0]))
    {
      ghost var stack := depthStack[..depth];
      depth := depth - 1;
      depthStack[depth - 1] := depthStack[depth - 1] - 1;
      assert depthStack[..depth] == Decremented(stack[..depth]);
      AfterAfter(out, [CloseLine(depth)], Close(rest, depthStack[..depth]));
      out := out + [CloseLine(depth)];
    }
  }

  /** One element of the list: its line, and the lines that close what it completes. */
  method PrintElement(elem: Element, depthStack: array<int>, depth0: nat, ghost rest: seq<Element>)
    returns (depth: nat, out: seq<Line>)
    requires 1 <= depth0 <= MAX_DEPTH && depthStack.Length == 64
    modifies depthStack
    ensures 1 <= depth <= MAX_DEPTH
    ensures After(out, Walk(rest, depthStack[..depth])) == Walk([elem] + rest, old(depthStack[..depth0]))
  {
    depth := depth0;
    ghost var stack := depthStack[..depth];
    assert ([elem] + rest)[1..] == rest;
    if !elem.isLeaf {
      out := [OpenLine(depth, elem.text)];
      if depth < 63 {
        depth := depth + 1;
        depthStack[depth - 1] := elem.numChildren;
      }
      assert depthStack[..depth] == if |stack| < MAX_DEPTH then stack + [elem.numChildren] else stack;
      return;
    }
    depthStack[depth - 1] := depthStack[depth - 1] - 1;
    assert depthStack[..depth] == Decremented(stack);
    out := [LeafLine(depth, elem.text)];
    var closing;
    depth, closing := CloseGroups(depthStack, depth, rest);
    AfterAfter(out, closing, Walk(rest, depthStack[..depth]));
    out := out + closing;
  }

  /** The list that a schema is stored as: its root, and its fields in preorder. */
  predicate IsSchema(elems: seq<Element>, ts: seq<Node>)
  {
    elems != [] && elems[0].numChildren == |ts| && elems[1..] == Preorder(ts)
  }

  /** The printing loop of cmd_schema. Element 0 is the root. A schema comes out nested if and only if
      every group has a child and no more than 62 are nested in each other; then the walk ends at the
      root, with no child of it left to come. */
  method PrintSchema(elems: seq<Element>) returns (out: seq<Line>, depth: nat, rootCounter: int)
    requires elems != []
    ensures Walk(elems[1..], [elems[0].numChildren]).lines == out
    ensures forall ts | IsSchema(elems, ts) :: out == Render(ts, 1) <==> NoEmptyGroup(ts) && Height(ts) <= 62
    ensures forall ts | IsSchema(elems, ts) && NoEmptyGroup(ts) && Height(ts) <= 62 ::
              depth == 1 && rootCounter == 0
  {
    hide Walk, Render, NoEmptyGroup, Height, Preorder;
    var depthStack := new int[64](_ => 0);
    depthStack[0] := elems[0].numChildren;
    depth := 1;
    out := [];
    ghost var whole := Walk(elems[1..], [elems[0].numChildren]);
    assert depthStack[..depth] == [elems[0].numChildren];
    AfterNothing(whole);
    for i := 1 to |elems|
      invariant 1 <= depth <= MAX_DEPTH
      invariant After(out, Walk(elems[i..], depthStack[..depth])) == whole
    {
      assert elems[i..] == [elems[i]] + elems[i + 1..];
      var lines;
      depth, lines := PrintElement(elems[i], depthStack, depth, elems[i + 1..]);
      AfterAfter(out, lines, Walk(elems[i + 1..], depthStack[..depth]));
      out := out + lines;
    }
    assert elems[|elems|..] == [] && out + [] == out;
    WalkNothing(depthStack[..depth]);
    assert whole == Printed(out, depthStack[..depth]);
    rootCounter := depthStack[0];
    forall ts | IsSchema(elems, ts)
      ensures out == Render(ts, 1) <==> NoEmptyGroup(ts) && Height(ts) <= 62
      ensures NoEmptyGroup(ts) && Height(ts) <= 62 ==> depth == 1 && rootCounter == 0
    {
      PrintsNested(ts);
      assert NoEmptyGroup(ts) && Height(ts) <= 62 ==>
          depthStack[..depth] == [0] && depthStack[..depth][0] == rootCounter;
    }
  }

  lemma AfterNothing(p: Printed)
    ensures After([], p) == p
  {
    assert [] + p.lines == p.lines;
  }

  lemma WalkNothing(stack: seq<int>)
    requires stack != []
    ensures Walk([], stack) == Printed([], stack)
  {
  }

  // ---- when the walk prints the tree ----

  function Top(stack: seq<int>): int
    requires stack != []
  {
    stack[|stack| - 1]
  }

  function Minus(stack: seq<int>, n: int): (r: seq<int>)
    requires stack != []
    ensures |r| == |stack|
  {
    stack[|stack| - 1 := Top(stack) - n]
  }

  lemma WalkLeaf(text: string, more: seq<Element>, stack: seq<int>)
    requires stack != []
    ensures Walk([Element(true, text, 0)] + more, stack) ==
            After([LeafLine(|stack|, text)], Close(more, Decremented(stack)))
  {
    assert ([Element(true, text, 0)] + more)[1..] == more;
  }

  lemma WalkGroup(text: string, n: int, more: seq<Element>, stack: seq<int>)
    requires stack != []
    ensures Walk([Element(false, text, n)] + more, stack) ==
            After([OpenLine(|stack|, text)], Walk(more, if |stack| < MAX_DEPTH then stack + [n] else stack))
  {
    assert ([Element(false, text, n)] + more)[1..] == more;
  }

  lemma CloseFull(more: seq<Element>, stack: seq<int>)
    requires stack != []
    ensures Close(more, stack + [0]) == After([CloseLine(|stack|)], Close(more, Decremented(stack)))
  {
    assert (stack + [0])[..|stack|] == stack;
  }

  /** A printable forest that its parent's counter still allows for is printed as it should be, and
      the walk goes on as after the last of its trees. */
  lemma {:induction false} WalkForest(ts: seq<Node>, rest: seq<Element>, stack: seq<int>)
    requires stack != [] && ts != [] && Top(stack) >= |ts| && Printable(ts, |stack|)
    ensures Walk(Preorder(ts) + rest, stack) == After(Render(ts, |stack|), Close(rest, Minus(stack, |ts|)))
    decreases ts
  {
    hide Walk, Close;
    var more, d, end := Preorder(ts[1..]) + rest, |stack|, Close(rest, Minus(stack, |ts|));
    AfterFirst(ts, rest, stack);
    match ts[0]
    case Leaf(text) =>
      WalkLeaf(text, more, stack);
      Concat([Element(true, text, 0)], [], [], Preorder(ts[1..]), rest);
      AfterAfter([LeafLine(d, text)], Render(ts[1..], d), end);
    case Group(text, children) =>
      WalkGroup(text, |children|, Preorder(children) + more, stack);
      WalkForest(children, more, stack + [|children|]);
      CloseFull(more, stack);
      assert Minus(stack + [|children|], |children|) == stack + [0];
      Concat([Element(false, text, |children|)], Preorder(children), [], Preorder(ts[1..]), rest);
      AfterFour([OpenLine(d, text)], Render(children, d + 1), [CloseLine(d)], Render(ts[1..], d), end);
  }

  lemma Concat<T>(a: seq<T>, b: seq<T>, c: seq<T>, d: seq<T>, e: seq<T>)
    ensures a + (b + (c + (d + e))) == a + b + c + d + e
    ensures c == [] ==> a + (b + (d + e)) == a + b + d + e
    ensures b == c == [] ==> a + (d + e) == a + d + e
  {
  }

  lemma AfterFour(a: seq<Line>, b: seq<Line>, c: seq<Line>, d: seq<Line>, p: Printed)
    ensures After(a, After(b, After(c, After(d, p)))) == After(a + b + c + d, p)
  {
    hide After;
    AfterAfter(c, d, p);
    AfterAfter(b, c + d, p);
    AfterAfter(a, b + (c + d), p);
    assert a + (b + (c + d)) == a + b + c + d;
  }

  /** Once the first tree is complete. */
  lemma {:induction false} AfterFirst(ts: seq<Node>, rest: seq<Element>, stack: seq<int>)
    requires stack != [] && ts != [] && Top(stack) >= |ts| && Printable(ts, |stack|)
    ensures Close(Preorder(ts[1..]) + rest, Decremented(stack)) ==
            After(Render(ts[1..], |stack|), Close(rest, Minus(stack, |ts|)))
    decreases ts, 0
  {
    if ts[1..] == [] {
      assert Preorder(ts[1..]) + rest == rest;
      AfterNothing(Close(rest, Minus(stack, |ts|)));
    } else {
      WalkForest(ts[1..], rest, Decremented(stack));
      assert Minus(Decremented(stack), |ts| - 1) == Minus(stack, |ts|);
    }
  }

  // ---- when it does not ----

  function Closings(lines: seq<Line>): nat
  {
    if lines == [] then 0 else (if lines[0].CloseLine? then 1 else 0) + Closings(lines[1..])
  }

  lemma {:induction false} ClosingsConcat(a: seq<Line>, b: seq<Line>)
    ensures Closings(a + b) == Closings(a) + Closings(b)
  {
    if a == [] {
      assert a + b == b;
    } else {
      assert (a + b)[1..] == a[1..] + b;
      ClosingsConcat(a[1..], b);
    }
  }

  function Groups(elems: seq<Element>): nat
  {
    if elems == [] then 0 else (if elems[0].isLeaf then 0 else 1) + Groups(elems[1..])
  }

  lemma {:induction false} GroupsConcat(a: seq<Element>, b: seq<Element>)
    ensures Groups(a + b) == Groups(a) + Groups(b)
  {
    if a == [] {
      assert a + b == b;
    } else {
      assert (a + b)[1..] == a[1..] + b;
      GroupsConcat(a[1..], b);
    }
  }

  /** The rendering closes every group. */
  lemma {:induction false} RenderCloses(ts: seq<Node>, depth: nat)
    ensures Closings(Render(ts, depth)) == Groups(Preorder(ts))
    decreases ts
  {
    if ts != [] {
      RenderCloses(ts[1..], depth);
      match ts[0]
      case Leaf(text) =>
        ClosingsConcat([LeafLine(depth, text)], Render(ts[1..], depth));
        GroupsConcat([Element(true, text, 0)], Preorder(ts[1..]));
      case Group(text, children) =>
        RenderCloses(children, depth + 1);
        var a, b := [OpenLine(depth, text)], Render(children, depth + 1);
        var c, d := [CloseLine(depth)], Render(ts[1..], depth);
        ClosingsConcat(a, b);
        ClosingsConcat(a + b, c);
        ClosingsConcat(a + b + c, d);
        var e := [Element(false, text, |children|)];
        GroupsConcat(e, Preorder(children));
        GroupsConcat(e + Preorder(children), Preorder(ts[1..]));
    }
  }

  /** A level above the root whose counter will not come down to zero again. */
  predicate Stuck(stack: seq<int>)
  {
    exists j | 1 <= j < |stack| :: stack[j] <= 0
  }

  /** The walk closes no more groups than there are, and one fewer when a level is stuck. */
  lemma {:induction false} WalkCloses(elems: seq<Element>, stack: seq<int>)
    requires stack != []
    ensures Closings(Walk(elems, stack).lines) <= |stack| - 1 + Groups(elems)
    ensures Stuck(stack) ==> Closings(Walk(elems, stack).lines) <= |stack| - 2 + Groups(elems)
    decreases |elems|, 0
  {
    if elems != [] {
      if elems[0].isLeaf {
        if Stuck(stack) {
          var j :| 1 <= j < |stack| && stack[j] <= 0;
          assert j < |stack| - 1 ==> Decremented(stack)[j] <= 0;
        }
        CloseCloses(elems[1..], Decremented(stack), Stuck(stack));
        ClosingsConcat([LeafLine(|stack|, elems[0].text)], Close(elems[1..], Decremented(stack)).lines);
      } else {
        var deeper := if |stack| < MAX_DEPTH then stack + [elems[0].numChildren] else stack;
        WalkCloses(elems[1..], deeper);
        ClosingsConcat([OpenLine(|stack|, elems[0].text)], Walk(elems[1..], deeper).lines);
      }
    }
  }

  /** While closing, the stuck level is below the top, or has just become negative. */
  lemma {:induction false} CloseCloses(elems: seq<Element>, stack: seq<int>, stuck: bool)
    requires stack != []
    requires stuck ==> (exists j | 1 <= j < |stack| - 1 :: stack[j] <= 0) || (|stack| > 1 && Top(stack) < 0)
    ensures Closings(Close(elems, stack).lines) <= |stack| - 1 + Groups(elems)
    ensures stuck ==> Closings(Close(elems, stack).lines) <= |stack| - 2 + Groups(elems)
    decreases |elems|, |stack|
  {
    if |stack| > 1 && Top(stack) == 0 {
      var lower := Decremented(stack[..|stack| - 1]);
      if stuck {
        var j :| 1 <= j < |stack| - 1 && stack[j] <= 0;
        assert j < |lower| - 1 ==> lower[j] <= 0;
      }
      CloseCloses(elems, lower, stuck);
      ClosingsConcat([CloseLine(|stack| - 1)], Close(elems, lower).lines);
    } else {
      WalkCloses(elems, stack);
    }
  }

  /** A forest that is not printable leaves a group unclosed. */
  lemma {:induction false} UnprintableWalk(ts: seq<Node>, rest: seq<Element>, stack: seq<int>)
    requires stack != [] && Top(stack) >= |ts| && !Printable(ts, |stack|)
    ensures Closings(Walk(Preorder(ts) + rest, stack).lines) < |stack| - 1 + Groups(Preorder(ts) + rest)
    decreases ts
  {
    hide Walk, Close, Closings;
    var more, d := Preorder(ts[1..]) + rest, |stack|;
    match ts[0]
    case Leaf(text) =>
      var e := [Element(true, text, 0)];
      Concat(e, [], [], Preorder(ts[1..]), rest);
      WalkLeaf(text, more, stack);
      CloseNothing(more, Decremented(stack));
      UnprintableWalk(ts[1..], rest, Decremented(stack));
      LineCount(LeafLine(d, text), Walk(more, Decremented(stack)).lines);
      GroupsConcat(e, more);
    case Group(text, children) =>
      var e, inner := [Element(false, text, |children|)], Preorder(children) + more;
      Concat(e, Preorder(children), [], Preorder(ts[1..]), rest);
      WalkGroup(text, |children|, inner, stack);
      var deeper := if d < MAX_DEPTH then stack + [|children|] else stack;
      LineCount(OpenLine(d, text), Walk(inner, deeper).lines);
      GroupsConcat(e, inner);
      if d >= MAX_DEPTH || children == [] {
        assert d < MAX_DEPTH ==> deeper[d] <= 0;
        WalkCloses(inner, deeper);
      } else if !Printable(children, d + 1) {
        UnprintableWalk(children, more, deeper);
      } else {
        UnprintableLater(ts, rest, stack);
      }
  }

  lemma LineCount(line: Line, lines: seq<Line>)
    ensures Closings([line] + lines) == (if line.CloseLine? then 1 else 0) + Closings(lines)
  {
    assert ([line] + lines)[1..] == lines;
  }

  lemma CloseNothing(more: seq<Element>, stack: seq<int>)
    requires stack != [] && Top(stack) != 0
    ensures Close(more, stack) == Walk(more, stack)
  {
  }

  /** The first tree is printed whole, and a later one is not. */
  lemma {:induction false} UnprintableLater(ts: seq<Node>, rest: seq<Element>, stack: seq<int>)
    requires stack != [] && ts != [] && Top(stack) >= |ts| && |stack| < MAX_DEPTH && ts[0].Group?
    requires ts[0].children != [] && Printable(ts[0].children, |stack| + 1) && !Printable(ts[1..], |stack|)
    ensures var inner := Preorder(ts[0].children) + (Preorder(ts[1..]) + rest);
            Closings(Walk(inner, stack + [|ts[0].children|]).lines) < |stack| + Groups(inner)
    decreases ts, 0
  {
    hide Walk, Close, Closings, Printable;
    var more, children := Preorder(ts[1..]) + rest, ts[0].children;
    var deeper := stack + [|children|];
    WalkForest(children, more, deeper);
    assert Minus(deeper, |children|) == stack + [0];
    CloseFull(more, stack);
    NotEmpty(ts[1..], |stack|);
    CloseNothing(more, Decremented(stack));
    UnprintableWalk(ts[1..], rest, Decremented(stack));
    var a, b := Render(children, |deeper|), Walk(more, Decremented(stack)).lines;
    ClosingsConcat(a, [CloseLine(|stack|)] + b);
    LineCount(CloseLine(|stack|), b);
    RenderCloses(children, |deeper|);
    GroupsConcat(Preorder(children), more);
  }

  lemma NotEmpty(ts: seq<Node>, depth: nat)
    requires !Printable(ts, depth)
    ensures ts != []
  {
  }

  /** The counter-stack walk prints the nested rendering of a schema if and only if every group has
      a child and no more than 62 are nested in each other; then it ends with the root's counter at
      zero. */
  lemma PrintsNested(ts: seq<Node>)
    ensures Walk(Preorder(ts), [|ts|]).lines == Render(ts, 1) <==> NoEmptyGroup(ts) && Height(ts) <= 62
    ensures NoEmptyGroup(ts) && Height(ts) <= 62 ==> Walk(Preorder(ts), [|ts|]).stack == [0]
  {
    hide Walk, Close, Render, Printable, Preorder, Closings, Height, NoEmptyGroup;
    assert Preorder(ts) + [] == Preorder(ts);
    WalkNothing([0]);
    PrintableHeight(ts, 1);
    if ts == [] {
      NothingToPrint();
    } else if Printable(ts, 1) {
      WalkForest(ts, [], [|ts|]);
      CloseNothingLeft();
      assert Minus([|ts|], |ts|) == [0] && Render(ts, 1) + [] == Render(ts, 1);
    } else {
      UnprintableWalk(ts, [], [|ts|]);
      RenderCloses(ts, 1);
    }
  }

  lemma NothingToPrint()
    ensures Preorder([]) == [] && Render([], 1) == [] && Printable([], 1)
  {
  }

  lemma CloseNothingLeft()
    ensures Close([], [0]) == Printed([], [0])
  {
  }

  // ---- an example ----

  /** The column that carquet_schema_add_list makes: a list of leaves, and a leaf after it. */
  function ListColumn(): seq<Node>
  {
    [Group("my_list", [Group("list", [Leaf("element")])]), Leaf("id")]
  }

  lemma ListColumnStored()
    ensures Preorder(ListColumn()) ==
            [Element(false, "my_list", 1), Element(false, "list", 1), Element(true, "element", 0),
             Element(true, "id", 0)]
  {
    var ts, mid, inner := ListColumn(), [Group("list", [Leaf("element")])], [Leaf("element")];
    assert ts[1..] == [Leaf("id")] && ts[1..][1..] == [] && mid[1..] == [] && inner[1..] == [];
    assert Preorder(inner) == [Element(true, "element", 0)];
    assert Preorder(mid) == [Element(false, "list", 1), Element(true, "element", 0)];
    assert Preorder(ts[1..]) == [Element(true, "id", 0)];
  }

  lemma ListColumnRendered()
    ensures Render(ListColumn(), 1) ==
            [OpenLine(1, "my_list"), OpenLine(2, "list"), LeafLine(3, "element"), CloseLine(2), CloseLine(1),
             LeafLine(1, "id")]
  {
    var ts, mid, inner := ListColumn(), [Group("list", [Leaf("element")])], [Leaf("element")];
    assert ts[1..] == [Leaf("id")] && ts[1..][1..] == [] && mid[1..] == [] && inner[1..] == [];
    assert Render(inner, 3) == [LeafLine(3, "element")] && Render(ts[1..], 1) == [LeafLine(1, "id")];
    assert Render(mid, 2) == [OpenLine(2, "list"), LeafLine(3, "element"), CloseLine(2)];
  }

  lemma ListColumnHeight()
    ensures Height(ListColumn()) == 2 && NoEmptyGroup(ListColumn())
  {
    var ts, mid, inner := ListColumn(), [Group("list", [Leaf("element")])], [Leaf("element")];
    assert ts[1..] == [Leaf("id")] && ts[1..][1..] == [] && mid[1..] == [] && inner[1..] == [];
    assert Height(inner) == 0 && Height(mid) == 1 && Height(ts[1..]) == 0;
    assert NoEmptyGroup(inner) && NoEmptyGroup(mid) && NoEmptyGroup(ts[1..]);
  }

  /** What is printed for it. */
  lemma ListColumnPrinted()
    ensures Walk(Preorder(ListColumn()), [2]).lines ==
            [OpenLine(1, "my_list"), OpenLine(2, "list"), LeafLine(3, "element"), CloseLine(2), CloseLine(1),
             LeafLine(1, "id")]
  {
    hide Walk, Render, Preorder, Height, NoEmptyGroup;
    PrintsNested(ListColumn());
    ListColumnHeight();
    ListColumnRendered();
  }
}
