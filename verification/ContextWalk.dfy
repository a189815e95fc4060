/**
  The two pruning walks over a build context, the size preflight (deploy-docker/src/preflight.rs) and the snapshot
  copy (deploy-docker/src/snapshot.rs), against the simple thing they stand for: every entry of the tree that the
  rules leave or the keep list names.
 */
module ContextWalk {
  import opened Bytes
  import opened Wildcards
  import opened IgnoreFile

  datatype Node = File(content: Text) | Link(target: Text) | Other | Dir(entries: seq<Entry>)

  datatype Entry = Entry(name: Text, node: Node)

  /** The patterns, and the paths Docker sends whatever they say. */
  datatype Choice = Choice(patterns: seq<seq<Text>>, keep: seq<Path>)

  const MAX_U64: nat := 0xFFFF_FFFF_FFFF_FFFF

  // ---------------------------------------------------------------- the simple thing

  predicate Sent(c: Choice, path: Path) {
    !Excludes(c.patterns, path) || path in c.keep
  }

  datatype Item = Copied(path: Path, content: Text) | Linked(path: Path, target: Text) | Skipped(path: Path)

  function ItemOf(path: Path, node: Node): Item
    requires !node.Dir?
  {
    match node
    case File(content) => Copied(path, content)
    case Link(target) => Linked(path, target)
    case Other => Skipped(path)
  }

  function SizeOf(node: Node): nat {
    if node.File? then |node.content| else 0
  }

  /** The bytes of every regular file under `d`, from entry `i` on, that is sent; nothing is pruned. */
  function Total(c: Choice, d: Node, rel: Path, i: nat): nat
    requires d.Dir? && i <= |d.entries|
    decreases d, |d.entries| - i
  {
    if i == |d.entries| then 0
    else
      var node, path := d.entries[i].node, rel + [d.entries[i].name];
      var here := if node.Dir? then Total(c, node, path, 0) else if Sent(c, path) then SizeOf(node) else 0;
      here + Total(c, d, rel, i + 1)
  }

  /** Everything under `d` but the folders, from entry `i` on, that is sent. */
  function Items(c: Choice, d: Node, rel: Path, i: nat): multiset<Item>
    requires d.Dir? && i <= |d.entries|
    decreases d, |d.entries| - i
  {
    if i == |d.entries| then multiset{}
    else
      var node, path := d.entries[i].node, rel + [d.entries[i].name];
      var here := if node.Dir? then Items(c, node, path, 0)
                  else if Sent(c, path) then multiset{ItemOf(path, node)} else multiset{};
      here + Items(c, d, rel, i + 1)
  }

  // ---------------------------------------------------------------- what pruning leaves out

  predicate HoldsKept(c: Choice, path: Path) {
    exists k | 0 <= k < |c.keep| :: path <= c.keep[k]
  }

  /** The condition under which a walk goes on to the next entry. */
  predicate Skips(c: Choice, path: Path, node: Node) {
    Excludes(c.patterns, path) && path !in c.keep && !(node.Dir? && HoldsKept(c, path))
  }

  lemma {:induction false} PrunedIsNothing(c: Choice, d: Node, rel: Path, i: nat)
    requires d.Dir? && i <= |d.entries|
    requires Excludes(c.patterns, rel) && !HoldsKept(c, rel)
    ensures Total(c, d, rel, i) == 0 && Items(c, d, rel, i) == multiset{}
    decreases d, |d.entries| - i
  {
    if i < |d.entries| {
      var node, path := d.entries[i].node, rel + [d.entries[i].name];
      ExcludesMore(c.patterns, [], rel, [d.entries[i].name]);
      forall k | 0 <= k < |c.keep| ensures !(path <= c.keep[k]) {
        assert rel <= path;
      }
      hide Excludes;
      if node.Dir? {
        PrunedIsNothing(c, node, path, 0);
      }
      PrunedIsNothing(c, d, rel, i + 1);
    }
  }

  /** A walk may pass over what it skips: nothing in it is sent. */
  lemma SkipsIsNothing(c: Choice, d: Node, rel: Path, i: nat)
    requires d.Dir? && i < |d.entries|
    requires Skips(c, rel + [d.entries[i].name], d.entries[i].node)
    ensures Total(c, d, rel, i) == Total(c, d, rel, i + 1) && Items(c, d, rel, i) == Items(c, d, rel, i + 1)
  {
    var node, path := d.entries[i].node, rel + [d.entries[i].name];
    if node.Dir? {
      PrunedIsNothing(c, node, path, 0);
    }
    hide Excludes, HoldsKept;
  }

  /** What it does not skip, and is no folder, is sent. */
  lemma NotSkippedIsSent(c: Choice, path: Path, node: Node)
    requires !Skips(c, path, node) && !node.Dir?
    ensures Sent(c, path)
  {
  }

  // ---------------------------------------------------------------- the stack

  datatype Frame = Frame(dir: Node, rel: Path)

  ghost predicate AllDirs(stack: seq<Frame>) {
    forall i :: 0 <= i < |stack| ==> stack[i].dir.Dir?
  }

  ghost function StackTotal(c: Choice, stack: seq<Frame>): nat
    requires AllDirs(stack)
  {
    if stack == [] then 0
    else
      var top := stack[|stack| - 1];
      Total(c, top.dir, top.rel, 0) + StackTotal(c, stack[..|stack| - 1])
  }

  ghost function StackItems(c: Choice, stack: seq<Frame>): multiset<Item>
    requires AllDirs(stack)
  {
    if stack == [] then multiset{}
    else
      var top := stack[|stack| - 1];
      Items(c, top.dir, top.rel, 0) + StackItems(c, stack[..|stack| - 1])
  }

  /** One for every folder still to read, counted with everything below it. */
  ghost function Work(d: Node, i: nat): nat
    requires d.Dir? && i <= |d.entries|
    decreases d, |d.entries| - i
  {
    if i == |d.entries| then 0
    else (if d.entries[i].node.Dir? then 1 + Work(d.entries[i].node, 0) else 0) + Work(d, i + 1)
  }

  ghost function StackWork(stack: seq<Frame>): nat
    requires AllDirs(stack)
  {
    if stack == [] then 0
    else 1 + Work(stack[|stack| - 1].dir, 0) + StackWork(stack[..|stack| - 1])
  }

  lemma Pushed(c: Choice, stack: seq<Frame>, d: Node, rel: Path)
    requires AllDirs(stack) && d.Dir?
    ensures AllDirs(stack + [Frame(d, rel)])
    ensures StackTotal(c, stack + [Frame(d, rel)]) == Total(c, d, rel, 0) + StackTotal(c, stack)
    ensures StackItems(c, stack + [Frame(d, rel)]) == Items(c, d, rel, 0) + StackItems(c, stack)
    ensures StackWork(stack + [Frame(d, rel)]) == 1 + Work(d, 0) + StackWork(stack)
  {
    assert (stack + [Frame(d, rel)])[..|stack|] == stack;
  }

  lemma Popped(c: Choice, stack: seq<Frame>)
    requires AllDirs(stack) && stack != []
    ensures var top, rest := stack[|stack| - 1], stack[..|stack| - 1];
            && AllDirs(rest)
            && StackTotal(c, stack) == Total(c, top.dir, top.rel, 0) + StackTotal(c, rest)
            && StackItems(c, stack) == Items(c, top.dir, top.rel, 0) + StackItems(c, rest)
            && StackWork(stack) == 1 + Work(top.dir, 0) + StackWork(rest)
  {
  }

  lemma Finished(c: Choice, d: Node, rel: Path)
    requires d.Dir?
    ensures Total(c, d, rel, |d.entries|) == 0 && Items(c, d, rel, |d.entries|) == multiset{}
    ensures Work(d, |d.entries|) == 0
  {
  }

  /** What entry `i` contributes, by what the walk does with it. */
  lemma EntryStep(c: Choice, d: Node, rel: Path, i: nat)
    requires d.Dir? && i < |d.entries|
    ensures var node, path := d.entries[i].node, rel + [d.entries[i].name];
            if Skips(c, path, node) then
              && Total(c, d, rel, i) == Total(c, d, rel, i + 1) && Items(c, d, rel, i) == Items(c, d, rel, i + 1)
              && Work(d, i) >= Work(d, i + 1)
            else if node.Dir? then
              && Total(c, d, rel, i) == Total(c, node, path, 0) + Total(c, d, rel, i + 1)
              && Items(c, d, rel, i) == Items(c, node, path, 0) + Items(c, d, rel, i + 1)
              && Work(d, i) == 1 + Work(node, 0) + Work(d, i + 1)
            else
              && Total(c, d, rel, i) == SizeOf(node) + Total(c, d, rel, i + 1)
              && Items(c, d, rel, i) == multiset{ItemOf(path, node)} + Items(c, d, rel, i + 1)
              && Work(d, i) == Work(d, i + 1)
  {
    var node, path := d.entries[i].node, rel + [d.entries[i].name];
    if Skips(c, path, node) {
      SkipsIsNothing(c, d, rel, i);
    } else if !node.Dir? {
      NotSkippedIsSent(c, path, node);
    }
    hide Skips, Sent;
  }

  // ---------------------------------------------------------------- the size preflight

  function SatAdd(a: nat, b: nat): nat {
    if a + b > MAX_U64 then MAX_U64 else a + b
  }

  /** A result within the limit is the exact sum, and one above it means that the sum is above it. */
  method ContextSize(root: Node, limit: nat, c: Choice) returns (r: nat)
    requires root.Dir? && limit <= MAX_U64
    ensures r <= limit ==> r == SatAdd(Total(c, root, [], 0), 0)
    ensures r > limit ==> Total(c, root, [], 0) > limit
  {
    hide Total, Items, Work, StackTotal, StackItems, StackWork, Skips, ItemOf;
    ghost var all: nat, counted: nat := Total(c, root, [], 0), 0;
    r := 0;
    StackStart(c, root);
    var stack := [Frame(root, [])];
    while stack != []
      invariant AllDirs(stack)
      invariant r == SatAdd(counted, 0) && counted + StackTotal(c, stack) == all
      decreases StackWork(stack)
    {
      Popped(c, stack);
      var top := stack[|stack| - 1];
      var d, rel := top.dir, top.rel;
      ghost var work := StackWork(stack);
      stack := stack[..|stack| - 1];
      for i := 0 to |d.entries|
        invariant AllDirs(stack)
        invariant r == SatAdd(counted, 0) && counted + Total(c, d, rel, i) + StackTotal(c, stack) == all
        invariant Work(d, i) + StackWork(stack) < work
      {
        EntryStep(c, d, rel, i);
        var node, path := d.entries[i].node, rel + [d.entries[i].name];
        if Skips(c, path, node) {
          continue;
        }
        if node.Dir? {
          Pushed(c, stack, node, path);
          stack := stack + [Frame(node, path)];
        } else if node.File? {
          counted := counted + |node.content|;
          r := SatAdd(r, |node.content|);
          if r > limit {
            return;
          }
        }
      }
      Finished(c, d, rel);
    }
    StackEnd(c);
  }

  lemma StackStart(c: Choice, root: Node)
    requires root.Dir?
    ensures AllDirs([Frame(root, [])])
    ensures StackTotal(c, [Frame(root, [])]) == Total(c, root, [], 0)
    ensures StackItems(c, [Frame(root, [])]) == Items(c, root, [], 0)
  {
    Pushed(c, [], root, []);
    assert [] + [Frame(root, [])] == [Frame(root, [])];
  }

  lemma StackEnd(c: Choice)
    ensures StackTotal(c, []) == 0 && StackItems(c, []) == multiset{}
  {
  }

  // ---------------------------------------------------------------- the snapshot

  datatype Outcome = Made(items: multiset<Item>, bytes: nat) | TooLarge

  const BUFFER: nat := 65536

  /** The next read returns at least one byte and at most a buffer of what is left. */
  function ReadSize(wanted: nat, left: nat): (n: nat)
    requires left > 0
    ensures 1 <= n <= left && n <= BUFFER
  {
    var n := if wanted == 0 then 1 else if wanted > BUFFER then BUFFER else wanted;
    if n > left then left else n
  }

  /** One file, in reads of any sizes; given up as soon as there is more than `room`. */
  method CopyFile(content: Text, room: nat, sizes: seq<nat>) returns (ok: bool, out: Text)
    ensures ok <==> |content| <= room
    ensures ok ==> out == content
  {
    var copied, turn := 0, 0;
    out := [];
    while copied < |content|
      invariant copied <= |content| && out == content[..copied] && copied <= room
    {
      var n := ReadSize(if turn < |sizes| then sizes[turn] else BUFFER, |content| - copied);
      if copied + n > room {
        return false, out;
      }
      out := out + content[copied..copied + n];
      copied, turn := copied + n, turn + 1;
    }
    ok := true;
  }

  method CopyTree(root: Node, limit: nat, c: Choice, sizes: seq<nat>) returns (r: Outcome)
    requires root.Dir? && limit <= MAX_U64
    ensures r.TooLarge? <==> Total(c, root, [], 0) > limit
    ensures r.Made? ==> r.items == Items(c, root, [], 0) && r.bytes == Total(c, root, [], 0)
  {
    hide Total, Items, Work, StackTotal, StackItems, StackWork, Skips;
    ghost var all, whole := Total(c, root, [], 0), Items(c, root, [], 0);
    var items: multiset<Item>, bytes := multiset{}, 0;
    StackStart(c, root);
    var stack := [Frame(root, [])];
    while stack != []
      invariant AllDirs(stack) && bytes <= limit
      invariant bytes + StackTotal(c, stack) == all && items + StackItems(c, stack) == whole
      decreases StackWork(stack)
    {
      Popped(c, stack);
      var top := stack[|stack| - 1];
      var d, rel := top.dir, top.rel;
      ghost var work := StackWork(stack);
      stack := stack[..|stack| - 1];
      for i := 0 to |d.entries|
        invariant AllDirs(stack) && bytes <= limit
        invariant bytes + Total(c, d, rel, i) + StackTotal(c, stack) == all
        invariant items + Items(c, d, rel, i) + StackItems(c, stack) == whole
        invariant Work(d, i) + StackWork(stack) < work
      {
        EntryStep(c, d, rel, i);
        var node, path := d.entries[i].node, rel + [d.entries[i].name];
        if Skips(c, path, node) {
          continue;
        }
        if node.Dir? {
          Pushed(c, stack, node, path);
          stack := stack + [Frame(node, path)];
        } else if node.File? {
          var ok, copy := CopyFile(node.content, limit - bytes, sizes);
          if !ok {
            return TooLarge;
          }
          items, bytes := items + multiset{Copied(path, copy)}, bytes + |copy|;
        } else {
          items := items + multiset{ItemOf(path, node)};
        }
      }
      Finished(c, d, rel);
    }
    StackEnd(c);
    r := Made(items, bytes);
  }

  // ---------------------------------------------------------------- what is sent is in the tree

  /** The node at a path below a folder. */
  ghost predicate At(d: Node, path: Path, node: Node) {
    if path == [] then d == node
    else
      d.Dir?
      && exists i :: 0 <= i < |d.entries| && d.entries[i].name == path[0] && At(d.entries[i].node, path[1..], node)
  }

  /** The item is made of a node at or below `n`, and its path is sent. */
  ghost predicate Holds(c: Choice, n: Node, path: Path, item: Item, below: Path, node: Node) {
    !node.Dir? && At(n, below, node) && item == ItemOf(path + below, node) && Sent(c, path + below)
  }

  ghost predicate Somewhere(c: Choice, n: Node, path: Path, item: Item) {
    exists below: Path, node: Node :: Holds(c, n, path, item, below, node)
  }

  lemma SomewhereLeaf(c: Choice, n: Node, path: Path, item: Item)
    requires !n.Dir?
    ensures Somewhere(c, n, path, item) <==> Sent(c, path) && item == ItemOf(path, n)
  {
    hide Sent;
    assert path + [] == path;
    assert Holds(c, n, path, item, [], n) <==> Sent(c, path) && item == ItemOf(path, n);
  }

  lemma SomewhereFolder(c: Choice, n: Node, path: Path, item: Item)
    requires n.Dir?
    ensures Somewhere(c, n, path, item)
       <==> exists j :: 0 <= j < |n.entries| && Somewhere(c, n.entries[j].node, path + [n.entries[j].name], item)
  {
    hide Sent, ItemOf;
    if below: Path, node: Node :| Holds(c, n, path, item, below, node) {
      var j :| 0 <= j < |n.entries| && n.entries[j].name == below[0] && At(n.entries[j].node, below[1..], node);
      assert path + [n.entries[j].name] + below[1..] == path + below;
      assert Holds(c, n.entries[j].node, path + [n.entries[j].name], item, below[1..], node);
    }
    if j :| 0 <= j < |n.entries| && Somewhere(c, n.entries[j].node, path + [n.entries[j].name], item) {
      var below: Path, node: Node :| Holds(c, n.entries[j].node, path + [n.entries[j].name], item, below, node);
      var longer := [n.entries[j].name] + below;
      assert path + longer == path + [n.entries[j].name] + below && longer[1..] == below;
      assert Holds(c, n, path, item, longer, node);
    }
  }

  /** A walk takes something exactly when it is somewhere in the tree and is sent. */
  lemma {:induction false} TakenIff(c: Choice, d: Node, rel: Path, i: nat, item: Item)
    requires d.Dir? && i <= |d.entries|
    ensures item in Items(c, d, rel, i)
       <==> exists j :: i <= j < |d.entries| && Somewhere(c, d.entries[j].node, rel + [d.entries[j].name], item)
    decreases d, |d.entries| - i
  {
    if i < |d.entries| {
      var node, path := d.entries[i].node, rel + [d.entries[i].name];
      TakenIff(c, d, rel, i + 1, item);
      if node.Dir? {
        TakenIff(c, node, path, 0, item);
        SomewhereFolder(c, node, path, item);
      } else {
        SomewhereLeaf(c, node, path, item);
      }
      hide Sent, Somewhere, ItemOf;
    }
  }
}
