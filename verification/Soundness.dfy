/** What an accepted proof establishes: authentication paths, when an accepted proof is one, and that two
    paths, or a path and a trie, can disagree only by exhibiting two nodes with one hash. */
module Soundness {
  import opened Wrappers
  import opened Numbers
  import opened Platforms
  import opened FeltText
  import opened BitSlices
  import opened Proofs
  import opened Acceptance
  import opened Tries

  /** The nodes authenticate `value` along exactly the bits `key`: every child on the way is the hash of the
      next node, every edge path is the part of the key it spans, and the lengths use up the key. */
  predicate Authenticates(pl: Platform, nodes: seq<Node<Field>>, key: seq<bool>, value: Field) {
    if nodes == [] then key == []
    else
      var below := Top(pl, nodes[1..], value);
      match nodes[0]
      case BinaryNode(left, right) =>
        && key != [] && (if key[0] then right else left) == below
        && Authenticates(pl, nodes[1..], key[1..], value)
      case EdgeNode(child, path, len) =>
        && 1 <= len <= |key| && path == NatOfBits(key[..len]) && child == below
        && Authenticates(pl, nodes[1..], key[len..], value)
  }

  /** The part of the key below a suffix of the proof that spans `span` levels. */
  function KeyBelow(key: seq<bool>, span: int): seq<bool>
    requires |key| == KEY_BITS && 0 <= span <= KEY_BITS
  {
    key[KEY_BITS - span..]
  }

  /** An edge above another node commits to that node and to its own part of the key. */
  predicate EdgeLinked(pl: Platform, key: seq<bool>, nodes: seq<Node<Field>>)
    requires |key| == KEY_BITS && nodes != []
  {
    nodes[0].EdgeNode? && |nodes| > 1 ==>
      && nodes[0].child == HashOf(pl, nodes[1])
      && 0 <= Span(nodes[1..]) <= Span(nodes) <= KEY_BITS
      && nodes[0].path == NatOfBits(key[KEY_BITS - Span(nodes)..KEY_BITS - Span(nodes[1..])])
  }

  /** Every edge has a length of at least 1 and is linked to the node below it. */
  ghost predicate LinkedBelow(pl: Platform, key: seq<bool>, nodes: seq<Node<Field>>)
    requires |key| == KEY_BITS
  {
    && LengthsAtLeast(nodes, 1)
    && forall i {:trigger EdgeLinked(pl, key, nodes[i..])} :: 0 <= i < |nodes| ==> EdgeLinked(pl, key, nodes[i..])
  }

  /** What a caller has to check on top of acceptance: linked edges, and lengths that make up the whole key.
      It does not mention the value. */
  ghost predicate Linked(pl: Platform, key: seq<bool>, nodes: seq<Node<Field>>)
    requires |key| == KEY_BITS
  {
    LinkedBelow(pl, key, nodes) && Span(nodes) == KEY_BITS
  }

  /** The first node with the parts that acceptance only compares by hash put in: the selected child of a
      binary node and the whole of an edge next to the leaf. */
  function HeadAuthentic(pl: Platform, key: seq<bool>, value: Field, nodes: seq<Node<Field>>): Node<Field>
    requires |key| == KEY_BITS && nodes != []
  {
    var node := nodes[0];
    if node.BinaryNode? then Select(node, BitAt(key, Span(nodes)), Top(pl, nodes[1..], value))
    else if |nodes| == 1 && 0 <= node.len <= KEY_BITS then EdgeToLeaf(key, value, node.len)
    else node
  }

  function Authentic(pl: Platform, key: seq<bool>, value: Field, nodes: seq<Node<Field>>): (r: seq<Node<Field>>)
    requires |key| == KEY_BITS
    ensures |r| == |nodes|
  {
    if nodes == [] then []
    else [HeadAuthentic(pl, key, value, nodes)] + Authentic(pl, key, value, nodes[1..])
  }

  /** Putting those parts in keeps every hash, so the root too. */
  lemma AuthenticTop(pl: Platform, key: seq<bool>, value: Field, nodes: seq<Node<Field>>)
    requires |key| == KEY_BITS && SpanFits(nodes) && Consistent(pl, key, value, nodes)
    ensures Top(pl, Authentic(pl, key, value, nodes), value) == Top(pl, nodes, value)
  {
    if nodes != [] {
      ConsistentUnfold(pl, key, value, nodes);
      SpanNonnegative(nodes);
      WrapAdd(Span(nodes), 0);
    }
  }

  lemma LinkedUnfold(pl: Platform, key: seq<bool>, nodes: seq<Node<Field>>)
    requires |key| == KEY_BITS && nodes != []
    ensures LinkedBelow(pl, key, nodes) <==>
      && EdgeLinked(pl, key, nodes) && (nodes[0].EdgeNode? ==> nodes[0].len >= 1)
      && LinkedBelow(pl, key, nodes[1..])
  {
    var tail := nodes[1..];
    assert nodes[0..] == nodes;
    if LinkedBelow(pl, key, nodes) {
      forall i | 0 <= i < |tail| ensures EdgeLinked(pl, key, tail[i..]) {
        assert tail[i..] == nodes[i + 1..];
      }
    } else if LengthsAtLeast(nodes, 1) {
      var i :| 0 <= i < |nodes| && !EdgeLinked(pl, key, nodes[i..]);
      if i > 0 { assert tail[i - 1..] == nodes[i..]; }
    } else {
      var i :| 0 <= i < |nodes| && nodes[i].EdgeNode? && nodes[i].len < 1;
      if i > 0 { assert tail[i - 1] == nodes[i]; }
    }
  }

  /** For a suffix of an accepted proof: it is linked exactly when its authentic form is a path. */
  lemma {:induction false} SuffixAuthenticates(pl: Platform, key: seq<bool>, value: Field, nodes: seq<Node<Field>>)
    requires |key| == KEY_BITS && SpanFits(nodes) && Consistent(pl, key, value, nodes)
    ensures Span(nodes) >= 0
    ensures LinkedBelow(pl, key, nodes)
       <==> Authenticates(pl, Authentic(pl, key, value, nodes), KeyBelow(key, Span(nodes)), value)
  {
    if nodes != [] {
      SpanNonnegative(nodes);
      SpanNonnegative(nodes[1..]);
      ConsistentUnfold(pl, key, value, nodes);
      LinkedUnfold(pl, key, nodes);
      SuffixAuthenticates(pl, key, value, nodes[1..]);
      AuthenticTop(pl, key, value, nodes[1..]);
      HeadAuthenticates(pl, key, value, nodes);
    }
  }

  lemma HeadAuthenticates(pl: Platform, key: seq<bool>, value: Field, nodes: seq<Node<Field>>)
    requires |key| == KEY_BITS && nodes != [] && SpanFits(nodes) && HeadConsistent(pl, key, value, nodes)
    requires 0 <= Span(nodes[1..]) <= Span(nodes)
    requires Top(pl, Authentic(pl, key, value, nodes[1..]), value) == Top(pl, nodes[1..], value)
    ensures
      Authenticates(pl, Authentic(pl, key, value, nodes), KeyBelow(key, Span(nodes)), value) <==>
        && EdgeLinked(pl, key, nodes) && (nodes[0].EdgeNode? ==> nodes[0].len >= 1)
        && Authenticates(pl, Authentic(pl, key, value, nodes[1..]), KeyBelow(key, Span(nodes[1..])), value)
  {
    if nodes[0].BinaryNode? {
      BinaryHead(pl, key, value, nodes);
    } else if |nodes| == 1 {
      LeafHead(pl, key, value, nodes);
    } else {
      InnerEdgeHead(pl, key, value, nodes);
    }
  }

  lemma BinaryHead(pl: Platform, key: seq<bool>, value: Field, nodes: seq<Node<Field>>)
    requires |key| == KEY_BITS && nodes != [] && nodes[0].BinaryNode?
    requires 0 <= Span(nodes[1..]) < Span(nodes) <= KEY_BITS
    requires Top(pl, Authentic(pl, key, value, nodes[1..]), value) == Top(pl, nodes[1..], value)
    ensures
      Authenticates(pl, Authentic(pl, key, value, nodes), KeyBelow(key, Span(nodes)), value) <==>
        Authenticates(pl, Authentic(pl, key, value, nodes[1..]), KeyBelow(key, Span(nodes[1..])), value)
  {
    hide Top, HashOf;
    var k := KeyBelow(key, Span(nodes));
    assert Authentic(pl, key, value, nodes)[1..] == Authentic(pl, key, value, nodes[1..]);
    assert k[0] == BitAt(key, Span(nodes)) && k[1..] == KeyBelow(key, Span(nodes[1..]));
  }

  lemma LeafHead(pl: Platform, key: seq<bool>, value: Field, nodes: seq<Node<Field>>)
    requires |key| == KEY_BITS && |nodes| == 1 && nodes[0].EdgeNode? && 0 <= nodes[0].len <= KEY_BITS
    ensures Span(nodes) == nodes[0].len
    ensures
      Authenticates(pl, Authentic(pl, key, value, nodes), KeyBelow(key, nodes[0].len), value) <==> nodes[0].len >= 1
    ensures nodes[1..] == [] && Authenticates(pl, Authentic(pl, key, value, nodes[1..]), KeyBelow(key, 0), value)
  {
    var k := KeyBelow(key, nodes[0].len);
    assert k[..nodes[0].len] == k && k[nodes[0].len..] == [];
    var path := Authentic(pl, key, value, nodes);
    assert path == [EdgeToLeaf(key, value, nodes[0].len)] && path[1..] == [];
  }

  lemma InnerEdgeHead(pl: Platform, key: seq<bool>, value: Field, nodes: seq<Node<Field>>)
    requires |key| == KEY_BITS && |nodes| > 1 && nodes[0].EdgeNode?
    requires 0 <= Span(nodes[1..]) <= Span(nodes) <= KEY_BITS
    requires Top(pl, Authentic(pl, key, value, nodes[1..]), value) == Top(pl, nodes[1..], value)
    ensures
      Authenticates(pl, Authentic(pl, key, value, nodes), KeyBelow(key, Span(nodes)), value) <==>
        && EdgeLinked(pl, key, nodes) && nodes[0].len >= 1
        && Authenticates(pl, Authentic(pl, key, value, nodes[1..]), KeyBelow(key, Span(nodes[1..])), value)
  {
    hide HashOf;
    var k, len := KeyBelow(key, Span(nodes)), nodes[0].len;
    assert Authentic(pl, key, value, nodes)[1..] == Authentic(pl, key, value, nodes[1..]);
    assert Top(pl, nodes[1..], value) == HashOf(pl, nodes[1]);
    assert k[..len] == key[KEY_BITS - Span(nodes)..KEY_BITS - Span(nodes[1..])];
    assert k[len..] == KeyBelow(key, Span(nodes[1..]));
  }

  lemma {:induction false} AuthenticatesWhole(pl: Platform, nodes: seq<Node<Field>>, key: seq<bool>, value: Field)
    requires Authenticates(pl, nodes, key, value)
    ensures LengthsAtLeast(nodes, 1) && Span(nodes) == |key|
  {
    if nodes != [] {
      var tail := nodes[1..];
      AuthenticatesWhole(pl, tail, key[Len(nodes[0])..], value);
      assert forall i :: 0 < i < |nodes| ==> nodes[i] == tail[i - 1];
    }
  }

  lemma {:induction false} AuthenticKeepsLengths(pl: Platform, key: seq<bool>, value: Field, nodes: seq<Node<Field>>)
    requires |key| == KEY_BITS
    ensures
      var path := Authentic(pl, key, value, nodes);
      && Span(path) == Span(nodes)
      && forall i :: 0 <= i < |nodes| ==>
           (path[i].EdgeNode? <==> nodes[i].EdgeNode?) && Len(path[i]) == Len(nodes[i])
  {
    if nodes != [] {
      AuthenticKeepsLengths(pl, key, value, nodes[1..]);
      var path := Authentic(pl, key, value, nodes);
      assert path[1..] == Authentic(pl, key, value, nodes[1..]);
      forall i | 0 < i < |nodes| ensures path[i] == path[1..][i - 1] && nodes[i] == nodes[1..][i - 1] {}
    }
  }

  /** When an accepted proof is an authentication path: exactly when the caller's checks hold. `Authentic`
      keeps every node's hash, so the path has the root the proof was accepted with. */
  lemma AcceptedIsPath(pl: Platform, key: seq<bool>, value: Field, nodes: seq<Node<Field>>)
    requires |key| == KEY_BITS && Consistent(pl, key, value, nodes)
    ensures Authenticates(pl, Authentic(pl, key, value, nodes), key, value) <==> Linked(pl, key, nodes)
    ensures Linked(pl, key, nodes) ==> Top(pl, Authentic(pl, key, value, nodes), value) == Top(pl, nodes, value)
  {
    var path := Authentic(pl, key, value, nodes);
    AuthenticKeepsLengths(pl, key, value, nodes);
    if Authenticates(pl, path, key, value) {
      AuthenticatesWhole(pl, path, key, value);
    }
    if LengthsAtLeast(nodes, 1) && Span(nodes) == KEY_BITS {
      SuffixAuthenticates(pl, key, value, nodes);
      AuthenticTop(pl, key, value, nodes);
      assert KeyBelow(key, KEY_BITS) == key;
    }
  }

  /** Two different nodes with one hash. Edge lengths are 1 to 251, so this is a Pedersen collision up to a
      small offset: ped(a, b) + m = ped(c, d) + n with (a, b, m) and (c, d, n) different and m, n at most 251. */
  predicate Collides(pl: Platform, x: Node<Field>, y: Node<Field>) {
    && x != y && HashOf(pl, x) == HashOf(pl, y)
    && (x.EdgeNode? ==> 1 <= x.len <= KEY_BITS)
    && (y.EdgeNode? ==> 1 <= y.len <= KEY_BITS)
  }

  datatype Pair = Pair(x: Node<Field>, y: Node<Field>)

  const NO_PAIR := Pair(BinaryNode(0, 0), BinaryNode(0, 0))

  /** The first position, from the root, at which two paths differ. */
  function FirstDifference(p: seq<Node<Field>>, q: seq<Node<Field>>): Pair {
    if p == [] || q == [] then NO_PAIR
    else if p[0] != q[0] then Pair(p[0], q[0])
    else FirstDifference(p[1..], q[1..])
  }

  /** Binding: two paths for one key and one root are the same path for the same value, or the first nodes
      in which they differ collide, whatever their shapes. */
  lemma {:induction false} PathsBind(pl: Platform, key: seq<bool>, p: seq<Node<Field>>, v: Field,
                                     q: seq<Node<Field>>, w: Field)
    requires |key| <= KEY_BITS
    requires Authenticates(pl, p, key, v) && Authenticates(pl, q, key, w)
    requires Top(pl, p, v) == Top(pl, q, w)
    ensures
      var d := FirstDifference(p, q);
      || (p == q && v == w)
      || (Collides(pl, d.x, d.y) && d.x in p && d.y in q)
  {
    if p != [] && q != [] && p[0] == q[0] {
      PathsBind(pl, key[Len(p[0])..], p[1..], v, q[1..], w);
      assert p == [p[0]] + p[1..] && q == [q[0]] + q[1..];
    }
  }

  /** Binding of accepted proofs: two accepted and linked proofs for one key with one result carry the same
      value, or the pair found between their authentic forms collides. */
  lemma AcceptedProofsBind(pl: Platform, key: seq<bool>, nodes: seq<Node<Field>>, v: Field,
                           others: seq<Node<Field>>, w: Field)
    requires |key| == KEY_BITS
    requires Consistent(pl, key, v, nodes) && Linked(pl, key, nodes)
    requires Consistent(pl, key, w, others) && Linked(pl, key, others)
    requires Top(pl, nodes, v) == Top(pl, others, w)
    ensures
      var d := Difference(pl, key, nodes, v, others, w);
      v == w || Collides(pl, d.x, d.y)
  {
    AcceptedIsPath(pl, key, v, nodes);
    AcceptedIsPath(pl, key, w, others);
    PathsBind(pl, key, Authentic(pl, key, v, nodes), v, Authentic(pl, key, w, others), w);
  }

  function Difference(pl: Platform, key: seq<bool>, nodes: seq<Node<Field>>, v: Field, others: seq<Node<Field>>,
                      w: Field): Pair
    requires |key| == KEY_BITS
  {
    FirstDifference(Authentic(pl, key, v, nodes), Authentic(pl, key, w, others))
  }

  /** Soundness against a trie: a path to the root of a trie carries the value the trie has at the key, or
      the first node in which it differs from the trie's own nodes collides with that node. In particular
      no path without a collision leads to a key the trie does not have. */
  lemma {:induction false} PathMatchesTrie(pl: Platform, t: Trie, key: seq<bool>, p: seq<Node<Field>>, v: Field)
    requires |key| <= KEY_BITS && WellFormed(t, |key|)
    requires Authenticates(pl, p, key, v) && Top(pl, p, v) == RootHash(pl, t, |key|)
    ensures
      var q := Prove(pl, t, |key|, key);
      var d := FirstDifference(p, q);
      || (Lookup(t, key) == Some(v) && p == q)
      || (Collides(pl, d.x, d.y) && d.x in p && d.y in q)
    decreases t
  {
    if t.Leaf? || p[0] != RootNode(pl, t, |key|) {
      RootsDiffer(pl, t, key, p, v);
    } else {
      hide *;
      SharedRoot(pl, t, key, p, v);
      PathMatchesTrie(pl, Child(t, key), key[Len(p[0])..], p[1..], v);
      SameHead(p[0], p, Prove(pl, t, |key|, key));
    }
  }

  lemma SameHead(node: Node<Field>, p: seq<Node<Field>>, q: seq<Node<Field>>)
    requires p != [] && q != [] && p[0] == node == q[0]
    ensures FirstDifference(p, q) == FirstDifference(p[1..], q[1..])
    ensures p[1..] == q[1..] ==> p == q
    ensures forall x :: x in p[1..] ==> x in p
    ensures forall x :: x in q[1..] ==> x in q
  {
    assert p == [node] + p[1..] && q == [node] + q[1..];
  }

  lemma RootsDiffer(pl: Platform, t: Trie, key: seq<bool>, p: seq<Node<Field>>, v: Field)
    requires |key| <= KEY_BITS && WellFormed(t, |key|)
    requires Authenticates(pl, p, key, v) && Top(pl, p, v) == RootHash(pl, t, |key|)
    requires !t.Leaf? ==> p[0] != RootNode(pl, t, |key|)
    ensures
      var q := Prove(pl, t, |key|, key);
      var d := FirstDifference(p, q);
      if t.Leaf? then Lookup(t, key) == Some(v) && p == q else Collides(pl, d.x, d.y) && d.x in p && d.y in q
  {
    if !t.Leaf? { ProveHead(pl, t, key); }
  }

  lemma ProveHead(pl: Platform, t: Trie, key: seq<bool>)
    requires |key| <= KEY_BITS && WellFormed(t, |key|) && !t.Leaf?
    ensures Prove(pl, t, |key|, key) != [] && Prove(pl, t, |key|, key)[0] == RootNode(pl, t, |key|)
  {
  }

  /** The subtrie a key leads to. */
  function Child(t: Trie, key: seq<bool>): Trie
    requires !t.Leaf? && key != []
  {
    match t
    case Branch(left, right) => if key[0] then right else left
    case Path(_, child) => child
  }

  /** A path that starts with the trie's own root node continues into the subtrie its key leads to. */
  lemma SharedRoot(pl: Platform, t: Trie, key: seq<bool>, p: seq<Node<Field>>, v: Field)
    requires 0 < |key| <= KEY_BITS && WellFormed(t, |key|) && !t.Leaf?
    requires Authenticates(pl, p, key, v) && p[0] == RootNode(pl, t, |key|)
    ensures
      var rest, sub := key[Len(p[0])..], Child(t, key);
      && WellFormed(sub, |rest|)
      && Authenticates(pl, p[1..], rest, v) && Top(pl, p[1..], v) == RootHash(pl, sub, |rest|)
      && Lookup(t, key) == Lookup(sub, rest)
      && Prove(pl, t, |key|, key) != [] && Prove(pl, t, |key|, key)[0] == p[0]
      && Prove(pl, t, |key|, key)[1..] == Prove(pl, sub, |rest|, rest)
  {
    if t.Path? {
      NatInjective(key[..|t.bits|], t.bits);
      assert t.bits <= key;
      PathDescends(pl, t, key);
    } else {
      BranchDescends(pl, t, key);
    }
  }

  lemma PathDescends(pl: Platform, t: Trie, key: seq<bool>)
    requires 0 < |key| <= KEY_BITS && WellFormed(t, |key|) && t.Path? && t.bits <= key
    ensures
      var rest, q := key[|t.bits|..], Prove(pl, t, |key|, key);
      && Lookup(t, key) == Lookup(t.child, rest)
      && q != [] && q[0] == RootNode(pl, t, |key|) && q[1..] == Prove(pl, t.child, |rest|, rest)
  {
  }

  lemma BranchDescends(pl: Platform, t: Trie, key: seq<bool>)
    requires 0 < |key| <= KEY_BITS && WellFormed(t, |key|) && t.Branch?
    ensures
      var rest, sub, q := key[1..], Child(t, key), Prove(pl, t, |key|, key);
      && Lookup(t, key) == Lookup(sub, rest)
      && q != [] && q[0] == RootNode(pl, t, |key|) && q[1..] == Prove(pl, sub, |rest|, rest)
  {
  }

  /** Completeness: for a key the trie has, the honest node list is a path from the trie's root to its value. */
  lemma {:induction false} ProveAuthenticates(pl: Platform, t: Trie, key: seq<bool>, v: Field)
    requires |key| <= KEY_BITS && WellFormed(t, |key|) && Lookup(t, key) == Some(v)
    ensures Authenticates(pl, Prove(pl, t, |key|, key), key, v)
    ensures Top(pl, Prove(pl, t, |key|, key), v) == RootHash(pl, t, |key|)
    decreases t
  {
    if !t.Leaf? {
      HonestRoot(pl, t, key, v);
      ProveAuthenticates(pl, Child(t, key), key[Len(RootNode(pl, t, |key|))..], v);
    }
  }

  lemma HonestRoot(pl: Platform, t: Trie, key: seq<bool>, v: Field)
    requires |key| <= KEY_BITS && WellFormed(t, |key|) && Lookup(t, key) == Some(v) && !t.Leaf?
    ensures
      var node := RootNode(pl, t, |key|);
      && 1 <= Len(node) <= |key|
      && var rest, sub := key[Len(node)..], Child(t, key);
      && WellFormed(sub, |rest|) && Lookup(sub, rest) == Some(v)
      && Prove(pl, t, |key|, key) != [] && Prove(pl, t, |key|, key)[0] == node
      && Prove(pl, t, |key|, key)[1..] == Prove(pl, sub, |rest|, rest)
      && match node {
           case BinaryNode(left, right) => (if key[0] then right else left) == RootHash(pl, sub, |rest|)
           case EdgeNode(child, path, len) => child == RootHash(pl, sub, |rest|) && path == NatOfBits(key[..len])
         }
  {
    if t.Path? {
      assert key[..|t.bits|] == t.bits;
      PathDescends(pl, t, key);
    } else {
      BranchDescends(pl, t, key);
    }
  }

  /** Every authentication path is accepted and linked, with itself as its authentic form. */
  lemma PathIsAccepted(pl: Platform, nodes: seq<Node<Field>>, key: seq<bool>, value: Field)
    requires |key| == KEY_BITS && Authenticates(pl, nodes, key, value)
    ensures Consistent(pl, key, value, nodes) && Linked(pl, key, nodes)
    ensures Authentic(pl, key, value, nodes) == nodes
  {
    AuthenticatesWhole(pl, nodes, key, value);
    assert KeyBelow(key, KEY_BITS) == key;
    PathSuffixAccepted(pl, nodes, key, value);
    AcceptedIsPath(pl, key, value, nodes);
  }

  lemma {:induction false} PathSuffixAccepted(pl: Platform, nodes: seq<Node<Field>>, key: seq<bool>, value: Field)
    requires |key| == KEY_BITS && SpanFits(nodes) && 0 <= Span(nodes)
    requires Authenticates(pl, nodes, KeyBelow(key, Span(nodes)), value)
    ensures Consistent(pl, key, value, nodes) && Authentic(pl, key, value, nodes) == nodes
  {
    if nodes != [] {
      SpanNonnegative(nodes);
      SpanNonnegative(nodes[1..]);
      var k := KeyBelow(key, Span(nodes));
      assert k[Len(nodes[0])..] == KeyBelow(key, Span(nodes[1..]));
      PathSuffixAccepted(pl, nodes[1..], key, value);
      ConsistentUnfold(pl, key, value, nodes);
      PathHeadAccepted(pl, nodes, key, value);
    }
  }

  lemma PathHeadAccepted(pl: Platform, nodes: seq<Node<Field>>, key: seq<bool>, value: Field)
    requires |key| == KEY_BITS && nodes != [] && 0 < Len(nodes[0]) <= Span(nodes) <= KEY_BITS
    requires Authenticates(pl, nodes, KeyBelow(key, Span(nodes)), value)
    ensures HeadConsistent(pl, key, value, nodes) && HeadAuthentic(pl, key, value, nodes) == nodes[0]
  {
    var k := KeyBelow(key, Span(nodes));
    WrapAdd(Span(nodes), 0);
    if nodes[0].EdgeNode? && |nodes| == 1 {
      assert k[..nodes[0].len] == key[KEY_BITS - nodes[0].len..];
    }
  }

  /** Completeness of `parse_proof`: for every well-formed trie of height 251 and every key it holds, the
      honest node list makes it return the trie's root. */
  lemma HonestProofAccepted(pl: Platform, t: Trie, keyText: string, v: Field)
    requires WellFormed(t, KEY_BITS) && FromHex(pl, keyText).Some?
    requires Lookup(t, KeyBits(FromHex(pl, keyText).value)) == Some(v)
    ensures
      var key := KeyBits(FromHex(pl, keyText).value);
      Parse(pl, keyText, Text(v), Texts(Prove(pl, t, KEY_BITS, key))) == Ok(Some(Text(RootHash(pl, t, KEY_BITS))))
  {
    var key := KeyBits(FromHex(pl, keyText).value);
    var nodes := Prove(pl, t, KEY_BITS, key);
    ProveAuthenticates(pl, t, key, v);
    PathIsAccepted(pl, nodes, key, v);
    DecodeTexts(pl, nodes);
    TextRoundTrip(pl, v);
    ExactAcceptance(pl, keyText, Text(v), Texts(nodes), Text(RootHash(pl, t, KEY_BITS)));
  }

  function TrieDifference(pl: Platform, t: Trie, key: seq<bool>, nodes: seq<Node<Field>>, v: Field): Pair
    requires |key| == KEY_BITS && WellFormed(t, KEY_BITS)
  {
    FirstDifference(Authentic(pl, key, v, nodes), Prove(pl, t, KEY_BITS, key))
  }

  lemma AcceptedMatchesTrie(pl: Platform, t: Trie, key: seq<bool>, nodes: seq<Node<Field>>, v: Field)
    requires |key| == KEY_BITS && WellFormed(t, KEY_BITS)
    requires Consistent(pl, key, v, nodes) && Linked(pl, key, nodes)
    requires Top(pl, nodes, v) == RootHash(pl, t, KEY_BITS)
    ensures
      var d := TrieDifference(pl, t, key, nodes, v);
      Lookup(t, key) == Some(v) || Collides(pl, d.x, d.y)
  {
    AcceptedIsPath(pl, key, v, nodes);
    PathMatchesTrie(pl, t, key, Authentic(pl, key, v, nodes), v);
  }
}
