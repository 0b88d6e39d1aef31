/**
 The trees that structure blocks describe: which lists of steps are a tree's,
 and how a blob is read as a tree.
 */
module DeviceTree {
  import opened Common
  import opened FlatTree

  datatype Tree = Tree(name: seq<Byte>, items: seq<Item>)
  datatype Item = Property(name: seq<Byte>, data: seq<Byte>) | Child(tree: Tree)

  /** The steps that describe a tree. */
  function Steps(t: Tree): seq<Event>
    decreases t, 1
  {
    [Begin(t.name)] + TailSteps(t, 0) + [End]
  }

  /** The steps of items i.. of a node. */
  function TailSteps(t: Tree, i: nat): seq<Event>
    requires i <= |t.items|
    decreases t, 0, |t.items| - i
  {
    if i == |t.items| then []
    else (match t.items[i]
          case Property(p, d) => [Prop(p, d)]
          case Child(c) => Steps(c)) + TailSteps(t, i + 1)
  }

  /** What is left of a list of steps after reading items up to the end of their node. */
  datatype ItemsRead = ItemsRead(items: seq<Item>, rest: seq<Event>)
  datatype NodeRead = NodeRead(tree: Tree, rest: seq<Event>)

  /** Read the items of a node, up to its end step. */
  function ReadItems(es: seq<Event>): (r: Option<ItemsRead>)
    ensures r.Some? ==> |r.value.rest| <= |es|
    decreases |es|, 1
  {
    if es == [] then None
    else match es[0]
      case End => Some(ItemsRead([], es))
      case Prop(p, d) =>
        var r := ReadItems(es[1..]);
        if r.None? then None else Some(ItemsRead([Property(p, d)] + r.value.items, r.value.rest))
      case Begin(_) =>
        var c := ReadNode(es);
        if c.None? then None
        else
          var r := ReadItems(c.value.rest);
          if r.None? then None else Some(ItemsRead([Child(c.value.tree)] + r.value.items, r.value.rest))
  }

  function ReadNode(es: seq<Event>): (r: Option<NodeRead>)
    requires es != [] && es[0].Begin?
    ensures r.Some? ==> |r.value.rest| < |es|
    decreases |es|, 0
  {
    var r := ReadItems(es[1..]);
    if r.None? || r.value.rest == [] then None
    else Some(NodeRead(Tree(es[0].name, r.value.items), r.value.rest[1..]))
  }

  /** Reading the steps of a tree gives the tree. */
  lemma {:induction false} NodeReadBack(t: Tree, rest: seq<Event>)
    ensures ReadNode(Steps(t) + rest) == Some(NodeRead(t, rest))
    decreases t, |t.items| + 1
  {
    var es := Steps(t) + rest;
    ItemsReadBack(t, 0, rest);
    assert es[0] == Begin(t.name);
    assert es[1..] == TailSteps(t, 0) + ([End] + rest);
    assert ([End] + rest)[1..] == rest;
    assert t.items[0..] == t.items;
  }

  /** Items read so far, with one more in front. */
  function WithItem(i: Item, r: Option<ItemsRead>): Option<ItemsRead> {
    if r.None? then None else Some(ItemsRead([i] + r.value.items, r.value.rest))
  }

  lemma ReadProperty(p: seq<Byte>, d: seq<Byte>, tail: seq<Event>)
    ensures ReadItems([Prop(p, d)] + tail) == WithItem(Property(p, d), ReadItems(tail))
  {
    assert ([Prop(p, d)] + tail)[1..] == tail;
  }

  lemma ReadChild(es: seq<Event>, c: Tree, tail: seq<Event>)
    requires es != [] && es[0].Begin? && ReadNode(es) == Some(NodeRead(c, tail))
    ensures ReadItems(es) == WithItem(Child(c), ReadItems(tail))
  {
  }

  lemma ReadNoItems(rest: seq<Event>)
    ensures ReadItems([] + ([End] + rest)) == Some(ItemsRead([], [End] + rest))
  {
    assert [] + ([End] + rest) == [End] + rest;
  }

  lemma StepsBegin(c: Tree, tail: seq<Event>)
    ensures Steps(c) + tail != [] && (Steps(c) + tail)[0] == Begin(c.name)
  {
  }

  lemma Assoc(a: seq<Event>, b: seq<Event>, c: seq<Event>)
    ensures a + b + c == a + (b + c)
  {
  }

  lemma {:induction false} ItemsReadBack(t: Tree, i: nat, rest: seq<Event>)
    requires i <= |t.items|
    ensures ReadItems(TailSteps(t, i) + ([End] + rest)) == Some(ItemsRead(t.items[i..], [End] + rest))
    decreases t, |t.items| - i
  {
    hide ReadItems, ReadNode, Steps;
    var after := [End] + rest;
    if i == |t.items| {
      ReadNoItems(rest);
    } else {
      ItemsReadBack(t, i + 1, rest);
      var tail := TailSteps(t, i + 1) + after;
      assert t.items[i..] == [t.items[i]] + t.items[i + 1..];
      match t.items[i]
      case Property(p, d) =>
        Assoc([Prop(p, d)], TailSteps(t, i + 1), after);
        ReadProperty(p, d, tail);
      case Child(c) =>
        Assoc(Steps(c), TailSteps(t, i + 1), after);
        StepsBegin(c, tail);
        NodeReadBack(c, tail);
        ReadChild(Steps(c) + tail, c, tail);
    }
  }

  // ----- which lists of steps are a tree's -----

  function Turn(e: Event): int {
    match e case Begin(_) => 1 case End => -1 case Prop(_, _) => 0
  }

  /** How many nodes a list of steps leaves open. */
  ghost function Opened(es: seq<Event>): int {
    if es == [] then 0 else Opened(es[..|es| - 1]) + Turn(es[|es| - 1])
  }

  lemma OpenedOneMore(es: seq<Event>, e: Event)
    ensures Opened(es + [e]) == Opened(es) + Turn(e)
  {
    assert (es + [e])[..|es|] == es;
  }

  lemma {:induction false} OpenedJoined(a: seq<Event>, b: seq<Event>)
    ensures Opened(a + b) == Opened(a) + Opened(b)
  {
    if b == [] {
      assert a + b == a;
    } else {
      var b0, e := b[..|b| - 1], b[|b| - 1];
      OpenedJoined(a, b0);
      OpenedOneMore(a + b0, e);
      assert a + b == a + b0 + [e];
    }
  }

  lemma OpenedOne(e: Event)
    ensures Opened([e]) == Turn(e)
  {
    OpenedOneMore([], e);
    assert [] + [e] == [e];
  }

  lemma OpenedFirst(es: seq<Event>)
    requires es != []
    ensures Opened(es) == Turn(es[0]) + Opened(es[1..])
  {
    OpenedOne(es[0]);
    OpenedJoined([es[0]], es[1..]);
    assert es == [es[0]] + es[1..];
  }

  /** The first step opens the root, which only the last one closes. */
  ghost predicate WellFormed(es: seq<Event>) {
    && es != [] && es[0].Begin? && Opened(es) == 0
    && forall k :: 0 < k < |es| ==> Opened(es[..k]) > 0
  }

  /** No step closes more nodes than were opened before. */
  ghost predicate NeverBelow(es: seq<Event>) {
    forall k :: 0 <= k <= |es| ==> Opened(es[..k]) >= 0
  }

  lemma NeverBelowJoined(a: seq<Event>, b: seq<Event>)
    requires Opened(a) == 0 && NeverBelow(a) && NeverBelow(b)
    ensures NeverBelow(a + b)
  {
    forall k | 0 <= k <= |a + b| ensures Opened((a + b)[..k]) >= 0 {
      if k <= |a| {
        assert (a + b)[..k] == a[..k];
      } else {
        assert (a + b)[..k] == a + b[..k - |a|];
        OpenedJoined(a, b[..k - |a|]);
      }
    }
  }

  lemma WellFormedAround(name: seq<Byte>, m: seq<Event>)
    requires Opened(m) == 0 && NeverBelow(m)
    ensures WellFormed([Begin(name)] + m + [End])
  {
    var es := [Begin(name)] + m + [End];
    OpenedOne(Begin(name));
    OpenedJoined([Begin(name)], m);
    OpenedOneMore([Begin(name)] + m, End);
    forall k | 0 < k < |es| ensures Opened(es[..k]) > 0 {
      assert es[..k] == [Begin(name)] + m[..k - 1];
      OpenedJoined([Begin(name)], m[..k - 1]);
    }
  }

  lemma WellFormedNeverBelow(es: seq<Event>)
    requires WellFormed(es)
    ensures NeverBelow(es)
  {
    assert es[..|es|] == es;
  }

  lemma OneProperty(p: seq<Byte>, d: seq<Byte>)
    ensures Opened([Prop(p, d)]) == 0 && NeverBelow([Prop(p, d)])
  {
    OpenedOne(Prop(p, d));
    assert [Prop(p, d)][..1] == [Prop(p, d)];
  }

  lemma {:induction false} TailNeverBelow(t: Tree, i: nat)
    requires i <= |t.items|
    ensures Opened(TailSteps(t, i)) == 0 && NeverBelow(TailSteps(t, i))
    decreases t, |t.items| - i
  {
    hide Opened, NeverBelow, Steps;
    if i == |t.items| {
      Nothing();
    } else {
      TailNeverBelow(t, i + 1);
      var first := match t.items[i] case Property(p, d) => [Prop(p, d)] case Child(c) => Steps(c);
      match t.items[i] {
        case Property(p, d) => OneProperty(p, d);
        case Child(c) => StepsWellFormed(c); WellFormedNeverBelow(Steps(c));
      }
      OpenedJoined(first, TailSteps(t, i + 1));
      NeverBelowJoined(first, TailSteps(t, i + 1));
    }
  }

  lemma Nothing()
    ensures Opened([]) == 0 && NeverBelow([])
  {
  }

  lemma {:induction false} StepsWellFormed(t: Tree)
    ensures WellFormed(Steps(t))
    decreases t, |t.items| + 1
  {
    hide Opened, NeverBelow, WellFormed;
    TailNeverBelow(t, 0);
    WellFormedAround(t.name, TailSteps(t, 0));
  }

  /** An item in front moves the others back by one. */
  lemma {:induction false} TailShift(n: seq<Byte>, x: Item, items: seq<Item>, i: nat)
    requires i <= |items|
    ensures TailSteps(Tree(n, [x] + items), i + 1) == TailSteps(Tree(n, items), i)
    decreases |items| - i
  {
    hide Steps;
    if i < |items| {
      TailShift(n, x, items, i + 1);
      assert ([x] + items)[i + 1] == items[i];
    }
  }

  /** The steps of an item and of those after it. */
  lemma FirstItem(n: seq<Byte>, x: Item, items: seq<Item>)
    ensures TailSteps(Tree(n, [x] + items), 0) ==
            (match x case Property(p, d) => [Prop(p, d)] case Child(c) => Steps(c)) + TailSteps(Tree(n, items), 0)
  {
    TailShift(n, x, items, 0);
  }

  lemma PropertyInFront(es: seq<Event>, n: seq<Byte>, p: seq<Byte>, d: seq<Byte>, items: seq<Item>, rest: seq<Event>)
    requires es != [] && es[0] == Prop(p, d) && es[1..] == TailSteps(Tree(n, items), 0) + rest
    ensures es == TailSteps(Tree(n, [Property(p, d)] + items), 0) + rest
  {
    hide TailSteps, Steps;
    FirstItem(n, Property(p, d), items);
    Assoc([Prop(p, d)], TailSteps(Tree(n, items), 0), rest);
    assert es == [Prop(p, d)] + es[1..];
  }

  lemma ChildInFront(es: seq<Event>, n: seq<Byte>, c: Tree, items: seq<Item>, rest: seq<Event>)
    requires es == Steps(c) + (TailSteps(Tree(n, items), 0) + rest)
    ensures es == TailSteps(Tree(n, [Child(c)] + items), 0) + rest
  {
    hide TailSteps, Steps;
    FirstItem(n, Child(c), items);
    Assoc(Steps(c), TailSteps(Tree(n, items), 0), rest);
  }

  lemma NoItems(n: seq<Byte>, es: seq<Event>)
    ensures es == TailSteps(Tree(n, []), 0) + es
  {
  }

  /** Whatever items are read, their steps are what was read. */
  lemma {:induction false} ItemsSound(es: seq<Event>, n: seq<Byte>)
    requires ReadItems(es).Some?
    ensures var r := ReadItems(es).value;
            r.rest != [] && r.rest[0].End? && es == TailSteps(Tree(n, r.items), 0) + r.rest
    decreases |es|
  {
    hide Steps, TailSteps, ReadNode;
    match es[0]
    case End => NoItems(n, es);
    case Prop(p, d) =>
      ItemsSound(es[1..], n);
      var r := ReadItems(es[1..]).value;
      PropertyInFront(es, n, p, d, r.items, r.rest);
    case Begin(name) =>
      var c := ReadNode(es).value;
      NodeSound(es);
      ItemsSound(c.rest, n);
      var r := ReadItems(c.rest).value;
      ChildInFront(es, n, c.tree, r.items, r.rest);
  }

  lemma {:induction false} NodeSound(es: seq<Event>)
    requires es != [] && es[0].Begin? && ReadNode(es).Some?
    ensures es == Steps(ReadNode(es).value.tree) + ReadNode(es).value.rest
    decreases |es|, 0
  {
    var name := es[0].name;
    ItemsSound(es[1..], name);
    var r := ReadItems(es[1..]).value;
    assert es == [Begin(name)] + TailSteps(Tree(name, r.items), 0) + [End] + r.rest[1..];
  }

  /** Steps that close more than they open hold the end of the node they begin in. */
  lemma {:induction false} ItemsComplete(es: seq<Event>)
    requires Opened(es) < 0
    ensures ReadItems(es).Some?
    decreases |es|
  {
    hide Opened, Steps, TailSteps;
    Nothing();
    OpenedFirst(es);
    match es[0]
    case End =>
    case Prop(p, d) => ItemsComplete(es[1..]);
    case Begin(name) =>
      ItemsComplete(es[1..]);
      ItemsSound(es[1..], name);
      NodeSound(es);
      var c := ReadNode(es).value;
      StepsWellFormed(c.tree);
      OpenedJoined(Steps(c.tree), c.rest);
      ItemsComplete(c.rest);
  }

  /** A list of steps read as one tree. */
  function ReadTree(es: seq<Event>): Option<Tree> {
    if es == [] || !es[0].Begin? then None
    else
      var r := ReadNode(es);
      if r.Some? && r.value.rest == [] then Some(r.value.tree) else None
  }

  /** The lists of steps that are read as a tree are the well formed ones, and the tree is the one they describe. */
  lemma TreeRead(es: seq<Event>)
    ensures ReadTree(es).Some? <==> WellFormed(es)
    ensures ReadTree(es).Some? ==> es == Steps(ReadTree(es).value)
  {
    hide Opened, Steps, ReadItems;
    if ReadTree(es).Some? {
      NodeSound(es);
      var t := ReadTree(es).value;
      assert Steps(t) + [] == Steps(t);
      StepsWellFormed(t);
    } else if WellFormed(es) {
      OpenedFirst(es);
      ItemsComplete(es[1..]);
      ItemsSound(es[1..], es[0].name);
      NodeSound(es);
      RootEnds(es, ReadNode(es).value.tree, ReadNode(es).value.rest);
      assert false;
    }
  }

  /** Nothing follows the root of a well formed list. */
  lemma RootEnds(es: seq<Event>, t: Tree, rest: seq<Event>)
    requires WellFormed(es) && es == Steps(t) + rest
    ensures rest == []
  {
    hide Opened, Steps;
    StepsWellFormed(t);
    assert es[..|Steps(t)|] == Steps(t);
  }

  /** A list of steps is well formed exactly when it is some tree's. */
  lemma WellFormedIsTree(es: seq<Event>)
    ensures WellFormed(es) <==> exists t :: es == Steps(t)
  {
    TreeRead(es);
    if t :| es == Steps(t) {
      StepsWellFormed(t);
    }
  }

  /** Each tree is read from its own steps and no others. */
  lemma TreesRead(es: seq<Event>)
    ensures ReadTree(es).Some? <==> WellFormed(es)
    ensures forall t :: ReadTree(es) == Some(t) <==> es == Steps(t)
  {
    hide Steps, WellFormed;
    TreeRead(es);
    forall t ensures ReadTree(es) == Some(t) <==> es == Steps(t) {
      if es == Steps(t) {
        NodeReadBack(t, []);
        StepsBegin(t, []);
        assert Steps(t) + [] == Steps(t);
      }
    }
  }

  /** As many nodes closed as opened is not enough. */
  lemma BalancedIsNotEnough()
    ensures Opened([End, Begin([])]) == 0 && !WellFormed([End, Begin([])]) && ReadTree([End, Begin([])]) == None
  {
    OpenedOne(End);
    OpenedOneMore([End], Begin([]));
    assert [End] + [Begin([])] == [End, Begin([])];
  }

  datatype Device = Device(root: Tree, reservations: seq<Reservation>)

  /** A whole blob, read as a tree. */
  function DecodeTree(b: seq<Byte>): Option<Device> {
    match Decode(b)
    case None => None
    case Some(c) =>
      match ReadTree(c.events)
      case None => None
      case Some(t) => Some(Device(t, c.reservations))
  }
}
