/** The mutable binary trie (`trie_node`, `Trie`), proved against the map-level specifications. */
module Tries {
  import opened Words
  import opened Rules
  import opened Expansion
  import opened KeyExpansion
  import opened PrefixTree
  import opened PriorityTrie
  import opened ExactTrie
  import opened KeyPriorities

  ghost function Linked(nodes: map<Path, TrieNode>, p: Path): TrieNode? {
    if p in nodes then nodes[p] else null
  }

  class TrieNode {
    var priority: nat
    var zero: TrieNode?  // children[0]
    var one: TrieNode?   // children[1]
    ghost const path: Path

    constructor (ghost p: Path)
      ensures priority == 0 && zero == null && one == null && path == p
    {
      priority := 0;
      zero, one := null, null;
      path := p;
    }

    function Child(b: bool): TrieNode?
      reads this
    {
      if b then one else zero
    }

    predicate IsRule()
      reads this
    {
      priority != 0
    }

    predicate IsIndependent()
      reads this
    {
      zero == null && one == null
    }

    method SetChild(b: bool, n: TrieNode?)
      modifies this
      ensures Child(b) == n && Child(!b) == old(Child(!b)) && priority == old(priority)
    {
      if b { one := n; } else { zero := n; }
    }
  }

  class Trie {
    var root: TrieNode
    var count: nat
    var nodeCount: nat
    var expandedTable: seq<Rule>
    var debug: nat          // the file's node tally: raised by every new node
    const threshold: nat    // the node budget

    ghost var nodes: map<Path, TrieNode>  // the reachable nodes, by root path
    ghost var tree: Tree                  // the priorities those nodes store
    ghost var repr: set<TrieNode>
    ghost var pruned: nat                 // nodes `remove` has freed so far
    ghost var freed: set<TrieNode>        // nodes `delete_trie` has freed
    ghost var freeOrder: seq<Path>        // their root paths, in order

    // The pointer structure is the tree of `nodes`.
    ghost predicate Shape()
      reads this`root, this`nodes, this`tree, this`repr, repr
    {
      && [] in nodes && nodes[[]] == root
      && (forall p :: p in tree <==> p in nodes)
      && (forall p | p in nodes :: nodes[p] in repr && nodes[p].path == p && |p| <= 64 && nodes[p].priority == tree[p])
      && (forall p {:trigger Parent(p)} | p in nodes && p != [] :: Parent(p) in nodes)
      && (forall p {:trigger nodes[p].zero} | p in nodes :: nodes[p].zero == Linked(nodes, p + [false]))
      && (forall p {:trigger nodes[p].one} | p in nodes :: nodes[p].one == Linked(nodes, p + [true]))
    }

    ghost predicate Valid()
      reads this, repr
    {
      && Shape()
      && nodeCount == |nodes| + pruned
      && debug == nodeCount
    }

    lemma TreeWellFormed()
      requires Shape()
      ensures WellFormed(tree)
    {
    }

    lemma RootFacts()
      requires Shape()
      ensures [] in nodes && nodes[[]] == root
    {
    }

    lemma NodeInRepr(p: Path)
      requires Shape() && p in nodes
      ensures nodes[p] in repr
    {
    }

    lemma NodeFacts(p: Path)
      requires Shape()
      ensures p in nodes <==> p in tree
      ensures p in nodes ==> nodes[p] in repr && nodes[p].path == p && nodes[p].priority == tree[p] && |p| <= 64
    {
    }

    ghost function State(): State
      reads this
    {
      PriorityTrie.State(tree, nodeCount, count, expandedTable)
    }

    constructor (budget: nat)
      ensures Valid() && State() == FRESH && threshold == budget && pruned == 0
      ensures fresh(repr)
    {
      var r := new TrieNode([]);
      root := r;
      count, nodeCount, debug := 0, 1, 1;
      expandedTable := [];
      threshold := budget;
      nodes, tree, repr, pruned := map[[] := r], EMPTY, {r}, 0;
      freed, freeOrder := {}, [];
    }

    // The pointer and bookkeeping part of hanging a fresh node below `node`.
    method Attach(node: TrieNode, b: bool, child: TrieNode, ghost p: Path)
      requires Shape() && p in nodes && nodes[p] == node && |p| < 64 && p + [b] !in nodes
      requires child !in repr && child.path == p + [b] && child.zero == null && child.one == null
      requires child.priority == 0
      modifies this`nodes, this`tree, this`repr, node
      ensures Shape() && repr == old(repr) + {child} && nodes == old(nodes)[p + [b] := child]
      ensures tree == old(tree)[p + [b] := 0]
    {
      ghost var q := p + [b];
      ghost var was := nodes;
      node.SetChild(b, child);
      nodes, tree, repr := nodes[q := child], tree[q := 0], repr + {child};
      assert Parent(q) == p;
      assert forall x | x in was && x != p :: was[x] != node;
      forall x | x in nodes
        ensures nodes[x].zero == Linked(nodes, x + [false])
        ensures nodes[x].one == Linked(nodes, x + [true])
      {
        LastStep(x, false, p, b);
        LastStep(x, true, p, b);
        assert Parent(x + [false]) == x && Parent(x + [true]) == x;
      }
    }

    // Hang a new ruleless node below `node`.
    method AddChild(node: TrieNode, b: bool, ghost p: Path) returns (child: TrieNode)
      requires Valid() && p in nodes && nodes[p] == node && |p| < 64 && p + [b] !in nodes
      modifies this, node
      ensures Valid() && fresh(child) && repr == old(repr) + {child}
      ensures nodes == old(nodes)[p + [b] := child]
      ensures tree == old(tree)[p + [b] := 0]
      ensures nodeCount == old(nodeCount) + 1 && pruned == old(pruned)
      ensures root == old(root) && count == old(count) && expandedTable == old(expandedTable)
    {
      hide Shape;
      child := new TrieNode(p + [b]);
      debug := debug + 1;
      AddedNode(nodes, p + [b], child);
      assert child !in repr;
      Attach(node, b, child, p);
      nodeCount := nodeCount + 1;
    }

    // Step to the node at depth level + 1, creating it when it is missing.
    method EnsureChild(node: TrieNode, b: bool, ghost p: Path, ghost level: nat) returns (child: TrieNode)
      requires Valid() && level < |p| <= 64 && p[level] == b
      requires p[..level] in nodes && nodes[p[..level]] == node
      modifies this, node
      ensures Valid() && fresh(repr - old(repr)) && old(repr) <= repr
      ensures p[..level + 1] in nodes && child == nodes[p[..level + 1]]
      ensures p[..level + 1] in tree && child.priority == tree[p[..level + 1]]
      ensures State() == Stepped(old(State()), p[..level + 1])
      ensures root == old(root) && pruned == old(pruned)
    {
      assert p[..level + 1] == p[..level] + [b];
      var next := node.Child(b);
      if next == null {
        next := AddChild(node, b, p[..level]);
      }
      child := next;
    }

    // ---------- Exact keys ----------

    method InsertRuleValue(key: Word)
      requires Valid()
      modifies this, repr
      ensures Valid() && fresh(repr - old(repr)) && old(repr) <= repr && pruned == old(pruned)
      ensures State() == InsertOne(old(State()), key)
    {
      hide Shape, Descended, InsertOne, WellFormed, Linked, Stepped;
      var pRule := root;
      ghost var p := KeyPath(key);
      ghost var s := old(State()).(count := (old(count) + 1) % TWO32);
      TreeWellFormed();
      RootFacts();
      DescentStarts(s, p);
      count := (count + 1) % TWO32;
      var level := 0;
      while level < 64
        invariant 0 <= level <= 64
        invariant Valid() && fresh(repr - old(repr)) && old(repr) <= repr && pruned == old(pruned)
        invariant p[..level] in nodes && pRule == nodes[p[..level]]
        invariant Descended(s, State(), p, level)
      {
        var index := Shr(key, 63 - level) % 2 == 1;
        DescentGoesOn(s, State(), p, level);
        ChildLink(p, level);
        pRule := EnsureChild(pRule, index, p, level);
        level := level + 1;
      }
      assert p[..64] == p;
      NodeFacts(p);
      InsertOutcome(old(State()), State(), key);
      SetPriority(pRule, count, p);
    }

    method SetPriority(node: TrieNode, priority: nat, ghost p: Path)
      requires Valid() && p in nodes && nodes[p] == node
      modifies this`tree, node
      ensures Valid() && tree == old(tree)[p := priority]
    {
      node.priority := priority;
      tree := tree[p := priority];
    }

    method SearchRule(key: Word) returns (found: bool)
      requires Valid()
      ensures found <==> Found(tree, key)
    {
      var pRule := root;
      ghost var p := KeyPath(key);
      TreeWellFormed();
      var level := 0;
      while level < 64
        invariant 0 <= level <= 64
        invariant p[..level] in nodes && pRule == nodes[p[..level]]
      {
        var index := Shr(key, 63 - level) % 2 == 1;
        assert p[..level + 1] == p[..level] + [index];
        if pRule.Child(index) == null {
          if p in tree { PrefixIn(tree, p, level + 1); }
          return false;
        }
        pRule := pRule.Child(index);
        level := level + 1;
      }
      assert p[..64] == p;
      return pRule.priority != 0;
    }

    // Expands the wildcards into single keys and inserts each of them.
    method InsertRule(rule: Rule)
      requires Valid() && ShiftsDefined(rule.mask)
      modifies this, repr
      ensures Valid() && fresh(repr - old(repr)) && old(repr) <= repr && pruned == old(pruned)
      ensures State() == InsertKeys(old(State()), ConvertedKeys(rule))
      ensures old(count) + KeyNumber(rule.mask) < TWO32 ==>
                && count == old(count) + KeyNumber(rule.mask)
                && forall key: Word ::
                     PriorityAt(tree, KeyPath(key)) ==
                     if Generated(rule, key) then old(count) + 1 + |LargerKeys(rule, key)|
                     else PriorityAt(old(tree), KeyPath(key))
    {
      hide Shape, InsertOne, Generated, KeyNumber, LargerKeys, PriorityAt;
      var positions := CollectPositions(rule.mask);
      var bound := IntShl1(|positions|);
      ghost var keys := ConvertedKeys(rule);
      var i := 0;
      while i < bound
        invariant 0 <= i && (bound >= 0 ==> i <= bound) && (bound < 0 ==> i == 0)
        invariant i <= |keys|
        invariant Valid() && fresh(repr - old(repr)) && old(repr) <= repr && pruned == old(pruned)
        invariant State() == InsertKeys(old(State()), keys[..i])
      {
        var key := KeyForCounter(Normalise(rule).value, positions, i);
        assert key == keys[i];
        assert keys[..i + 1][..i] == keys[..i];
        InsertRuleValue(key);
        i := i + 1;
      }
      assert keys[..i] == keys;
      if old(count) + KeyNumber(rule.mask) < TWO32 {
        ExpandedPriorities(old(State()), rule, 0);
        forall key: Word { ExpandedPriorities(old(State()), rule, key); }
      }
    }

    // ---------- Prefix rules ----------

    // The step of a budgeted walk; null when a node is missing and the budget is used up.
    method BudgetedChild(node: TrieNode, b: bool, ghost p: Path, ghost level: nat) returns (child: TrieNode?)
      requires Valid() && level < |p| <= 64 && p[level] == b
      requires p[..level] in nodes && nodes[p[..level]] == node
      modifies this, node
      ensures Valid() && fresh(repr - old(repr)) && old(repr) <= repr
      ensures child == null <==> p[..level + 1] !in old(tree) && old(nodeCount) + 1 > threshold
      ensures child == null ==> State() == old(State()) && nodes == old(nodes)
      ensures child != null ==> p[..level + 1] in nodes && child == nodes[p[..level + 1]]
      ensures child != null ==> child.priority == PriorityAt(tree, p[..level + 1])
      ensures child != null ==> State() == Stepped(old(State()), p[..level + 1])
      ensures pruned == old(pruned)
    {
      hide Shape;
      ChildLink(p, level);
      if node.Child(b) == null {
        if nodeCount + 1 > threshold {
          return null;
        }
      }
      child := EnsureChild(node, b, p, level);
    }

    method InsertPrefixRulePriority(rule: Rule) returns (testError: int)
      requires Valid() && rule.mask != ALL_ONES
      modifies this, repr
      ensures Valid() && fresh(repr - old(repr)) && old(repr) <= repr && pruned == old(pruned)
      ensures var o := Offer(old(State()), threshold, RulePath(rule), rule.priority);
              State() == o.state && testError == if o.failed then 1 else 0
    {
      hide Shape, WellFormed, Offer, PriorityAt, Walking, Stepped, RulePath, Linked, Log2, Pow2, Shr;
      var pRule := root;
      var maskNum := MyLog2(rule.mask + 1);
      var prefixLen := (64 - maskNum) % TWO32;
      ghost var p := RulePath(rule);
      ghost var s := State();
      TreeWellFormed();
      RootFacts();
      WalkStarts(s, threshold, p, rule.priority);
      RulePathLength(rule);
      var level := 0;
      while level < prefixLen
        invariant 0 <= level <= prefixLen == |p|
        invariant Valid() && fresh(repr - old(repr)) && old(repr) <= repr && pruned == old(pruned)
        invariant p[..level] in nodes && pRule == nodes[p[..level]]
        invariant Walking(s, State(), threshold, p, rule.priority, level)
      {
        var index := Shr(rule.value, 63 - level) % 2 == 1;
        RulePathBit(rule, level);
        NodeInRepr(p[..level]);
        WalkGoesOn(s, State(), threshold, p, rule.priority, level);
        var next := BudgetedChild(pRule, index, p, level);
        if next == null {
          return 1;
        }
        pRule := next;
        level := level + 1;
        if pRule.priority > 0 && pRule.priority < rule.priority {
          return 0;
        }
      }
      assert p[..|p|] == p;
      NodeFacts(p);
      WalkStores(s, State(), threshold, p, rule.priority);
      StoreRule(pRule, rule.priority, p);
      return 0;
    }

    // The counted store at the end of a walk.
    method StoreRule(node: TrieNode, priority: nat, ghost p: Path)
      requires Valid() && p in nodes && nodes[p] == node
      modifies this`tree, this`count, node
      ensures Valid() && pruned == old(pruned)
      ensures State() == PriorityTrie.State(old(tree)[p := priority], old(nodeCount), (old(count) + 1) % TWO32, old(expandedTable))
    {
      count := (count + 1) % TWO32;
      SetPriority(node, priority, p);
    }

    method GetNewNum(rule: Rule) returns (newNum: nat)
      ensures newNum == NewNum(rule.mask)
    {
      var boundary, positions := ScanMask(rule.mask);
      newNum := |positions|;
    }

    method ExpandRule(rule: Rule)
      requires Valid()
      modifies this, repr
      ensures Valid() && fresh(repr - old(repr)) && old(repr) <= repr && pruned == old(pruned)
      ensures State() == Expand(old(State()), threshold, rule).state
      ensures !Expandable(rule.mask) ==> State() == old(State())
      ensures Expandable(rule.mask) && !Expand(old(State()), threshold, rule).failed ==>
                |expandedTable| == |old(expandedTable)| + Pow2(ExpandedWildcards(rule.mask))
    {
      ExpansionCount(State(), threshold, rule);
      hide Shape, Offer, OfferAll, ExpandedRule, RulePath;
      var boundary, positions := ScanMask(rule.mask);
      var newNum := |positions|;
      if newNum > MAX_EXPANSION {
        return;
      }
      ghost var rs := ExpandedRules(rule);
      ghost var s := State();
      assert rs[0..] == rs;
      var i := 0;
      while i < Pow2(newNum)
        invariant 0 <= i <= |rs|
        invariant Valid() && fresh(repr - old(repr)) && old(repr) <= repr && pruned == old(pruned)
        invariant OfferAll(State(), threshold, rs[i..]) == OfferAll(s, threshold, rs)
      {
        var expandedRule := ExpandCounter(rule, boundary, positions, i);
        assert expandedRule == rs[i];
        OfferAllStep(State(), threshold, rs, i);
        var test := InsertPrefixRulePriority(expandedRule);
        if test == 1 {
          return;
        }
        expandedTable := expandedTable + [expandedRule];
        i := i + 1;
      }
      assert rs[|rs|..] == [];
      OfferNothing(State(), threshold);
    }

    // The best priority on the key's path, with the number of nodes visited; the action is
    // never filled in.
    method LPM1SearchRule(key: Word) returns (ret: SearchResult)
      requires Valid()
      ensures ret == SearchResult(Best(tree, KeyPath(key), 64), 0, Depth(tree, KeyPath(key)))
    {
      hide Shape, Depth, WellFormed;
      var pRule := root;
      ret := SearchResult(0, 0, 0);
      var priorityArray: seq<nat> := [];
      ghost var p := KeyPath(key);
      TreeWellFormed();
      RootFacts();
      assert p[..0] == [];
      var level := 0;
      while level < 64
        invariant 0 <= level <= 64
        invariant p[..level] in nodes && pRule == nodes[p[..level]]
        invariant forall x | x in priorityArray :: x > 0
        invariant ret == SearchResult(if priorityArray == [] then 0 else MinElement(priorityArray), 0, level)
        invariant ret.priority == Best(tree, p, level)
      {
        var index := Shr(key, 63 - level) % 2 == 1;
        ChildLink(p, level);
        NodeFacts(p[..level]);
        NodeFacts(p[..level + 1]);
        var next := pRule.Child(index);
        if next == null {
          WalkEnds(tree, p, level);
          break;
        }
        pRule := next;
        if pRule.priority != 0 {
          MinIsBetter(priorityArray, pRule.priority);
          priorityArray := priorityArray + [pRule.priority];
          ret := ret.(priority := MinElement(priorityArray));
        }
        ret := ret.(attempts := level + 1);
        level := level + 1;
      }
      if level == 64 {
        NodeFacts(p[..64]);
        DepthMeaning(tree, p, 64);
      }
    }

    // ---------- Pruning delete ----------

    // The pointer and bookkeeping part of unlinking a leaf.
    method Detach(node: TrieNode, b: bool, ghost p: Path)
      requires Shape() && p in nodes && nodes[p] == node && p + [b] in nodes && Leaf(tree, p + [b])
      modifies this`nodes, this`tree, node
      ensures Shape() && tree == old(tree) - {p + [b]} && nodes == old(nodes) - {p + [b]}
    {
      ghost var q, was := p + [b], nodes;
      node.SetChild(b, null);
      nodes, tree := nodes - {q}, tree - {q};
      assert forall x | x in was && x != p :: was[x] != node;
      forall x | x in nodes
        ensures nodes[x].zero == Linked(nodes, x + [false])
        ensures nodes[x].one == Linked(nodes, x + [true])
      {
        LastStep(x, false, p, b);
        LastStep(x, true, p, b);
      }
      forall x {:trigger Parent(x)} | x in nodes && x != [] ensures Parent(x) in nodes {
        NotBelow(q, x, was);
      }
    }

    // Unlink and free a leaf below `node`.
    method FreeChild(node: TrieNode, b: bool, ghost p: Path)
      requires Valid() && p in nodes && nodes[p] == node && p + [b] in nodes
      requires Leaf(tree, p + [b])
      modifies this`nodes, this`tree, this`pruned, node
      ensures Valid() && tree == old(tree) - {p + [b]} && nodes == old(nodes) - {p + [b]}
      ensures pruned == old(pruned) + 1
    {
      hide Shape;
      RemovedNode(nodes, p + [b]);
      Detach(node, b, p);
      pruned := pruned + 1;
    }

    // True when the node has neither a rule nor children left and may be freed by its parent.
    method Remove(pNode: TrieNode?, key: Word, level: nat, len: nat, ghost p: Path) returns (gone: bool)
      requires Valid() && level <= len <= 64 && p == KeyPath(key)[..len]
      requires pNode == Linked(nodes, p[..level])
      modifies this`nodes, this`tree, this`pruned, repr
      ensures Valid()
      ensures forall x | x in nodes :: x in old(nodes) && nodes[x] == old(nodes)[x]
      ensures p !in old(tree) ==> tree == old(tree) && pruned == old(pruned) && !gone
      ensures p in old(tree) ==> tree == PruneTo(old(tree)[p := 0], p, level)
      ensures p in old(tree) ==> (gone <==> Dead(old(tree)[p := 0], p, level))
      decreases len - level
    {
      hide Shape, Dead, PruneTo, WellFormed;
      TreeWellFormed();
      NodeFacts(p[..level]);
      if pNode != null {
        if level == len {
          assert p[..level] == p;
          SetPriority(pNode, 0, p);
          PruneNothing(tree, p);
          IndependentLeaf(pNode, p);
          return pNode.IsIndependent();
        } else {
          var index := Shr(key, 63 - level) % 2 == 1;
          ghost var z := tree[p := 0];
          ChildLink(p, level);
          var inner := Remove(pNode.Child(index), key, level + 1, len, p);
          if inner {
            PruneStep(z, p, level);
            NodeFacts(p[..level + 1]);
            NodeFacts(p[..level]);
            FreeChild(pNode, index, p[..level]);
            NodeFacts(p[..level]);
            IndependentLeaf(pNode, p[..level]);
            return !pNode.IsRule() && pNode.IsIndependent();
          }
          if p in old(tree) { PruneStops(z, p, level); }
        }
      } else if p in old(tree) {
        PrefixIn(old(tree), p, level);
      }
      return false;
    }

    method DeleteRule(key: Word)
      requires Valid()
      modifies this`nodes, this`tree, this`pruned, repr
      ensures Valid() && tree == Delete(old(tree), KeyPath(key))
    {
      RootFacts();
      assert KeyPath(key)[..0] == [];
      assert KeyPath(key)[..64] == KeyPath(key);
      var gone := Remove(root, key, 0, 64, KeyPath(key));
    }

    lemma ChildLink(p: Path, level: nat)
      requires Shape() && level < |p| && p[..level] in nodes
      ensures p[..level + 1] == p[..level] + [p[level]]
      ensures nodes[p[..level]].Child(p[level]) == Linked(nodes, p[..level + 1])
      ensures nodes[p[..level]].Child(p[level]) == null <==> p[..level + 1] !in tree
      ensures nodes[p[..level]] in repr
    {
      assert p[..level + 1] == p[..level] + [p[level]];
    }

    lemma IndependentLeaf(node: TrieNode, p: Path)
      requires Shape() && p in nodes && nodes[p] == node
      ensures node.IsIndependent() <==> Leaf(tree, p)
    {
    }

    // ---------- Freeing everything ----------

    // `delete_trie`: the recursion never visits a freed node and frees each one below r once.
    method DeleteTrie(r: TrieNode?, ghost p: Path)
      requires Shape() && r == Linked(nodes, p)
      requires NodesBelow(nodes, p) !! freed
      requires debug >= |PathsBelow(nodes, p)|
      modifies this`debug, this`freed, this`freeOrder
      ensures debug == old(debug) - |PathsBelow(nodes, p)|
      ensures freed == old(freed) + NodesBelow(nodes, p)
      ensures freeOrder == old(freeOrder) + FreeOrder(nodes, p)
      decreases 65 - |p|, 0
    {
      hide Shape, PathsBelow, NodesBelow, Linked;
      if r == null {
        Absent(p);
        NothingBelow(p);
        return;
      }
      Present(p);
      NodeFacts(p);
      SplitBelow(p);
      DistinctBelow(p);
      ChildLinks(p);
      SplitFreed(freed, r, NodesBelow(nodes, p + [false]), NodesBelow(nodes, p + [true]), NodesBelow(nodes, p));
      DeleteChild(r.zero, p + [false]);
      DeleteChild(r.one, p + [true]);
      assert r !in freed;
      freed, freeOrder := freed + {r}, freeOrder + [r.path];
      debug := debug - 1;
    }

    lemma Absent(p: Path)
      requires Linked(nodes, p) == null
      ensures p !in nodes
    {
    }

    lemma Present(p: Path)
      requires Linked(nodes, p) != null
      ensures p in nodes && nodes[p] == Linked(nodes, p)
    {
    }

    // The guarded recursive call on one child.
    method DeleteChild(child: TrieNode?, ghost p: Path)
      requires Shape() && child == Linked(nodes, p) && |p| <= 65
      requires NodesBelow(nodes, p) !! freed
      requires debug >= |PathsBelow(nodes, p)|
      modifies this`debug, this`freed, this`freeOrder
      ensures debug == old(debug) - |PathsBelow(nodes, p)|
      ensures freed == old(freed) + NodesBelow(nodes, p)
      ensures freeOrder == old(freeOrder) + FreeOrder(nodes, p)
      decreases 65 - |p|, 1
    {
      hide Shape, PathsBelow, NodesBelow;
      if child != null {
        DeleteTrie(child, p);
      } else {
        NothingBelow(p);
      }
    }

    lemma ChildLinks(p: Path)
      requires Shape() && p in nodes
      ensures |p| <= 64
      ensures nodes[p].zero == Linked(nodes, p + [false]) && nodes[p].one == Linked(nodes, p + [true])
    {
    }

    // The nodes below p are p's own and those below its two children.
    lemma SplitBelow(p: Path)
      requires Shape() && p in nodes
      ensures |PathsBelow(nodes, p)| == 1 + |PathsBelow(nodes, p + [false])| + |PathsBelow(nodes, p + [true])|
      ensures NodesBelow(nodes, p) == {nodes[p]} + NodesBelow(nodes, p + [false]) + NodesBelow(nodes, p + [true])
    {
      PathsSplit(nodes, p);
      hide Shape;
      forall q ensures Under(p, q) <==> q == p || Under(p + [false], q) || Under(p + [true], q) { UnderSplit(p, q); }
    }

    lemma DistinctBelow(p: Path)
      requires Shape() && p in nodes
      ensures NodesBelow(nodes, p + [false]) !! NodesBelow(nodes, p + [true])
      ensures nodes[p] !in NodesBelow(nodes, p + [false]) && nodes[p] !in NodesBelow(nodes, p + [true])
    {
      forall q ensures !(Under(p + [false], q) && Under(p + [true], q)) { UnderSplit(p, q); }
      UnderSplit(p, p);
      assert forall n | n in NodesBelow(nodes, p + [false]) :: Under(p + [false], n.path);
      assert forall n | n in NodesBelow(nodes, p + [true]) :: Under(p + [true], n.path);
    }

    /** The order of freeing: every node below p once, and none before a node below it. */
    lemma {:induction false} ChildrenFirst(p: Path)
      requires Shape()
      ensures forall q :: q in FreeOrder(nodes, p) <==> q in PathsBelow(nodes, p)
      ensures |FreeOrder(nodes, p)| == |PathsBelow(nodes, p)| && BottomUp(FreeOrder(nodes, p))
      decreases 66 - |p|
    {
      if p in nodes {
        NodeFacts(p);
        ChildrenFirst(p + [false]);
        ChildrenFirst(p + [true]);
        SplitBelow(p);
        hide Shape;
        FreeOrderStep(nodes, p);
      } else {
        NothingBelow(p);
      }
    }

    // Freeing from the root covers every node; `debug` then still counts the pruned ones.
    lemma WholeTrie()
      requires Valid()
      ensures |PathsBelow(nodes, [])| == nodeCount - pruned
      ensures forall p | p in nodes :: nodes[p] in NodesBelow(nodes, [])
    {
      forall p | p in nodes ensures Under([], p) { }
      assert PathsBelow(nodes, []) == nodes.Keys;
    }

    lemma NothingBelow(p: Path)
      requires Shape() && p !in nodes
      ensures PathsBelow(nodes, p) == {} && NodesBelow(nodes, p) == {}
    {
      TreeWellFormed();
      forall q | q in nodes ensures !Under(p, q) {
        if |p| <= |q| {
          PrefixIn(tree, q, |p|);
          assert Under(p, q) <==> q[..|p|] == p;
        }
      }
    }
  }

  lemma ExpansionCount(s: State, threshold: nat, r: Rule)
    ensures !Expandable(r.mask) ==> Expand(s, threshold, r) == Outcome(s, false)
    ensures Expandable(r.mask) && !Expand(s, threshold, r).failed ==>
              |Expand(s, threshold, r).state.table| == |s.table| + Pow2(ExpandedWildcards(r.mask))
  {
    FitsMeaning(r);
    if Expandable(r.mask) {
      NewNumMeaning(r.mask);
      var n := OfferAllTable(s, threshold, ExpandedRules(r));
    }
  }

  lemma NotBelow(q: Path, x: Path, nodes: map<Path, TrieNode>)
    requires x in nodes && x != [] && q + [false] !in nodes && q + [true] !in nodes
    ensures Parent(x) != q
  {
    var last := x[|x| - 1];
    assert x == Parent(x) + [last];
    if last {
      assert x == Parent(x) + [true];
    } else {
      assert x == Parent(x) + [false];
    }
  }

  lemma SplitFreed(freed: set<TrieNode>, r: TrieNode, left: set<TrieNode>, right: set<TrieNode>, all: set<TrieNode>)
    requires all == {r} + left + right && all !! freed
    requires left !! right && r !in left && r !in right
    ensures left !! freed && right !! freed + left && r !in freed + left + right
    ensures freed + {} == freed && freed + left + {} == freed + left
    ensures freed + left + right + {r} == freed + all
  {
  }

  predicate Under(p: Path, q: Path) {
    p <= q
  }

  lemma UnderSplit(p: Path, q: Path)
    ensures Under(p, q) <==> q == p || Under(p + [false], q) || Under(p + [true], q)
    ensures !(Under(p + [false], q) && Under(p + [true], q))
    ensures !Under(p + [false], p) && !Under(p + [true], p)
  {
    if Under(p, q) && q != p { assert q[|p|] || p + [false] <= q; }
    assert Under(p + [false], q) ==> |p| < |q| && q[|p|] == (p + [false])[|p|];
    assert Under(p + [true], q) ==> |p| < |q| && q[|p|] == (p + [true])[|p|];
  }

  ghost function PathsBelow(nodes: map<Path, TrieNode>, p: Path): set<Path> {
    set q | q in nodes && Under(p, q)
  }

  ghost function NodesBelow(nodes: map<Path, TrieNode>, p: Path): set<TrieNode> {
    set q | q in nodes && Under(p, q) :: nodes[q]
  }

  // Both branches, then the node itself.
  ghost function FreeOrder(nodes: map<Path, TrieNode>, p: Path): seq<Path>
    decreases 66 - |p|
  {
    if p !in nodes || |p| > 65 then []
    else FreeOrder(nodes, p + [false]) + FreeOrder(nodes, p + [true]) + [p]
  }

  lemma FreeOrderStep(nodes: map<Path, TrieNode>, p: Path)
    requires p in nodes && |p| <= 64
    requires forall q :: q in FreeOrder(nodes, p + [false]) <==> q in PathsBelow(nodes, p + [false])
    requires forall q :: q in FreeOrder(nodes, p + [true]) <==> q in PathsBelow(nodes, p + [true])
    requires BottomUp(FreeOrder(nodes, p + [false])) && BottomUp(FreeOrder(nodes, p + [true]))
    ensures forall q :: q in FreeOrder(nodes, p) <==> q in PathsBelow(nodes, p)
    ensures FreeOrder(nodes, p) == FreeOrder(nodes, p + [false]) + FreeOrder(nodes, p + [true]) + [p]
    ensures BottomUp(FreeOrder(nodes, p))
  {
    var a, b := FreeOrder(nodes, p + [false]), FreeOrder(nodes, p + [true]);
    assert FreeOrder(nodes, p) == a + b + [p];
    hide FreeOrder, BottomUp;
    forall q ensures Under(p, q) <==> q == p || Under(p + [false], q) || Under(p + [true], q) { UnderSplit(p, q); }
    forall q ensures q in a + b + [p] <==> q in a || q in b || q == p { }
    BranchesApart(a, b, p);
  }

  // No path comes before one that extends it.
  ghost predicate BottomUp(ps: seq<Path>) {
    forall i, j | 0 <= i < j < |ps| :: !(ps[i] < ps[j])
  }

  lemma BranchesApart(a: seq<Path>, b: seq<Path>, p: Path)
    requires BottomUp(a) && BottomUp(b)
    requires (forall q | q in a :: Under(p + [false], q)) && forall q | q in b :: Under(p + [true], q)
    ensures BottomUp(a + b + [p])
  {
    var s := a + b + [p];
    forall i, j | 0 <= i < j < |s| ensures !(s[i] < s[j]) {
      UnderSplit(p, s[j]);
      assert i < |a| ==> s[i] in a;
      assert |a| <= i < |a| + |b| ==> s[i] in b;
      assert j < |a| ==> s[j] in a;
      assert |a| <= j < |a| + |b| ==> s[j] in b;
      if s[i] < s[j] { UnderTransitive(p, s[i], s[j]); }
    }
  }

  lemma UnderTransitive(p: Path, q: Path, x: Path)
    requires q < x
    ensures Under(p + [false], q) ==> Under(p + [false], x)
    ensures Under(p + [true], q) ==> Under(p + [true], x)
  {
  }

  lemma PathsSplit(nodes: map<Path, TrieNode>, p: Path)
    requires p in nodes
    ensures |PathsBelow(nodes, p)| == 1 + |PathsBelow(nodes, p + [false])| + |PathsBelow(nodes, p + [true])|
  {
    var a, b := PathsBelow(nodes, p + [false]), PathsBelow(nodes, p + [true]);
    forall q ensures Under(p, q) <==> q == p || Under(p + [false], q) || Under(p + [true], q) { UnderSplit(p, q); }
    forall q ensures !(Under(p + [false], q) && Under(p + [true], q)) { UnderSplit(p, q); }
    assert PathsBelow(nodes, p) == {p} + a + b;
  }

  lemma RemovedNode(nodes: map<Path, TrieNode>, q: Path)
    requires q in nodes
    ensures |nodes - {q}| == |nodes| - 1
  {
    assert (nodes - {q}).Keys == nodes.Keys - {q};
  }

  // The end of a key's walk, stored with the raised count.
  lemma InsertOutcome(s: State, t: State, key: Word)
    requires WellFormed(s.tree) && Descended(s.(count := (s.count + 1) % TWO32), t, KeyPath(key), 64)
    ensures InsertOne(s, key) == t.(tree := t.tree[KeyPath(key) := t.count])
  {
    DepthMeaning(s.tree, KeyPath(key), 64);
  }

  lemma AddedNode(nodes: map<Path, TrieNode>, q: Path, n: TrieNode)
    requires q !in nodes
    ensures |nodes[q := n]| == |nodes| + 1
  {
    assert nodes[q := n].Keys == nodes.Keys + {q};
  }

  lemma LastStep(x: Path, c: bool, p: Path, b: bool)
    ensures x + [c] == p + [b] <==> x == p && c == b
  {
    if x + [c] == p + [b] {
      assert x == (x + [c])[..|x|] && p == (p + [b])[..|p|];
      assert (x + [c])[|x|] == c;
    }
  }

  // A walk that meets a missing child has consulted every node there is.
  lemma WalkEnds(t: Tree, p: Path, level: nat)
    requires WellFormed(t) && level < |p| && p[..level] in t && p[..level + 1] !in t
    ensures Depth(t, p) == level && Best(t, p, |p|) == Best(t, p, level)
  {
    DepthMeaning(t, p, level);
    DepthMeaning(t, p, level + 1);
    BestStopsAtDepth(t, p, |p|);
  }
}
