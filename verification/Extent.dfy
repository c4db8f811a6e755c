/** How far acceptance alone, without the links, ties a value to a trie's root: for full-length proofs exactly
    where the way to the key has no edge that ends above the leaves. */
module Extent {
  import opened Wrappers
  import opened Numbers
  import opened Platforms
  import opened FeltText
  import opened BitSlices
  import opened Proofs
  import opened Acceptance
  import opened Tries
  import opened Soundness

  /** A proof cut off below one of its nodes and completed by an edge to another value. */
  function Substitute(key: seq<bool>, nodes: seq<Node<Field>>, i: nat, w: Field): seq<Node<Field>>
    requires |key| == KEY_BITS && SpanFits(nodes) && i < |nodes|
  {
    SuffixFits(nodes, i + 1);
    nodes[..i + 1] + [EdgeToLeaf(key, w, Span(nodes[i + 1..]))]
  }

  /** Acceptance does not tie the value to the result below an edge: cutting an accepted proof off under any
      of its edges and completing it to any value gives an accepted proof with the same result and length. */
  lemma {:induction false} AcceptanceStopsAtEdges(pl: Platform, key: seq<bool>, nodes: seq<Node<Field>>, v: Field,
                                                  i: nat, w: Field)
    requires |key| == KEY_BITS && Consistent(pl, key, v, nodes) && SpanFits(nodes)
    requires i < |nodes| && nodes[i].EdgeNode?
    ensures
      var other := Substitute(key, nodes, i, w);
      Consistent(pl, key, w, other) && Top(pl, other, w) == Top(pl, nodes, v) && Span(other) == Span(nodes)
  {
    var node, tail := nodes[0], nodes[1..];
    SuffixFits(nodes, i + 1);
    SuffixFits(nodes, 1);
    var leaf := EdgeToLeaf(key, w, Span(nodes[i + 1..]));
    assert nodes == [node] + tail;
    hide NodeConsistent, HashOf, Consistent, EdgeToLeaf;
    ConsistentCons(pl, key, v, node, tail);
    if i == 0 {
      EdgeOverEdge(pl, key, node, leaf, v, Top(pl, tail, v), tail == [], w);
      assert nodes[..1] + [leaf] == [node] + [leaf];
    } else {
      AcceptanceStopsAtEdges(pl, key, tail, v, i - 1, w);
      assert tail[i..] == nodes[i + 1..];
      assert nodes[..i + 1] + [leaf] == [node] + Substitute(key, tail, i - 1, w);
      SameAbove(pl, key, node, tail, v, Substitute(key, tail, i - 1, w), w);
    }
  }

  /** A node above other nodes is accepted over all lists with the same hash and length, whatever the value. */
  lemma SameAbove(pl: Platform, key: seq<bool>, node: Node<Field>, tail: seq<Node<Field>>, v: Field,
                  other: seq<Node<Field>>, w: Field)
    requires |key| == KEY_BITS && tail != [] && other != [] && Consistent(pl, key, v, [node] + tail)
    requires Consistent(pl, key, w, other) && Top(pl, other, w) == Top(pl, tail, v) && Span(other) == Span(tail)
    ensures Consistent(pl, key, w, [node] + other) && Top(pl, [node] + other, w) == HashOf(pl, node)
    ensures Span([node] + other) == Len(node) + Span(tail)
  {
    hide Consistent, HashOf;
    ConsistentCons(pl, key, v, node, tail);
    ConsistentCons(pl, key, w, node, other);
  }

  lemma EdgeOverEdge(pl: Platform, key: seq<bool>, node: Node<Field>, leaf: Node<Field>, v: Field, below: Field,
                     last: bool, w: Field)
    requires |key| == KEY_BITS && leaf.EdgeNode? && 0 <= leaf.len <= KEY_BITS && leaf == EdgeToLeaf(key, w, leaf.len)
    requires node.EdgeNode? && NodeConsistent(pl, key, v, node, last, below, Len(node) + leaf.len)
    ensures Consistent(pl, key, w, [node] + [leaf])
    ensures Top(pl, [node] + [leaf], w) == HashOf(pl, node) && Span([node] + [leaf]) == Len(node) + leaf.len
  {
    ConsistentCons(pl, key, w, leaf, []);
    assert [leaf] + [] == [leaf];
    ConsistentCons(pl, key, w, node, [leaf]);
  }

  /** The way from a trie's root towards a key meets an edge, whether or not the key agrees with its path. */
  predicate EdgeOnWay(t: Trie, key: seq<bool>) {
    match t
    case Leaf(_) => false
    case Branch(_, _) => key != [] && EdgeOnWay(Child(t, key), key[1..])
    case Path(_, _) => true
  }

  /** The first edge on the way ends above the leaves. */
  predicate InnerEdge(t: Trie, key: seq<bool>) {
    match t
    case Leaf(_) => false
    case Branch(_, _) => key != [] && InnerEdge(Child(t, key), key[1..])
    case Path(bits, _) => |bits| < |key|
  }

  /** A trie's nodes down to the first edge on the way to `rest`, completed by an edge to any value. */
  function CutAtEdge(pl: Platform, t: Trie, key: seq<bool>, rest: seq<bool>, w: Field): seq<Node<Field>>
    requires |key| == KEY_BITS && |rest| <= KEY_BITS && WellFormed(t, |rest|) && EdgeOnWay(t, rest)
  {
    if t.Branch? then [RootNode(pl, t, |rest|)] + CutAtEdge(pl, Child(t, rest), key, rest[1..], w)
    else [RootNode(pl, t, |rest|), EdgeToLeaf(key, w, |rest| - |t.bits|)]
  }

  /** No zero or negative lengths, and a sum that makes up the whole key. */
  predicate FullLength(nodes: seq<Node<Field>>) {
    LengthsAtLeast(nodes, 1) && Span(nodes) == KEY_BITS
  }

  /** Every edge leaves the value open: the cut-off list is accepted with the trie's root for every key behind
      an edge, held or not, and for every value. Its lengths make up the key, and none is 0 if the edge ends
      above the leaves. */
  lemma {:induction false} CutAtEdgeAccepted(pl: Platform, t: Trie, key: seq<bool>, span: nat, w: Field)
    requires |key| == KEY_BITS && span <= KEY_BITS && WellFormed(t, span) && EdgeOnWay(t, KeyBelow(key, span))
    ensures
      var nodes := CutAtEdge(pl, t, key, KeyBelow(key, span), w);
      && nodes != [] && Consistent(pl, key, w, nodes) && Top(pl, nodes, w) == RootHash(pl, t, span)
      && Span(nodes) == span && LengthsAtLeast(nodes, if InnerEdge(t, KeyBelow(key, span)) then 1 else 0)
    decreases t
  {
    var rest, node := KeyBelow(key, span), RootNode(pl, t, span);
    if t.Branch? {
      var sub := Child(t, rest);
      assert rest[1..] == KeyBelow(key, span - 1);
      CutAtEdgeAccepted(pl, sub, key, span - 1, w);
      RootOfBranch(pl, t, key, span, w);
      hide Consistent, NodeConsistent, RootHash, HashOf, EdgeToLeaf, Prove, RootNode;
      var tail := CutAtEdge(pl, sub, key, rest[1..], w);
      ConsistentCons(pl, key, w, node, tail);
    } else {
      hide Consistent, Masked, WellFormed;
      var leaf := EdgeToLeaf(key, w, span - |t.bits|);
      EdgeOverEdge(pl, key, node, leaf, w, w, false, w);
      assert [node] + [leaf] == [node, leaf];
    }
  }

  /** A branch meets the demands on a node above the root of the subtrie the key leads to. */
  lemma RootOfBranch(pl: Platform, t: Trie, key: seq<bool>, span: nat, w: Field)
    requires |key| == KEY_BITS && span <= KEY_BITS && WellFormed(t, span) && t.Branch?
    ensures
      var node, sub := RootNode(pl, t, span), Child(t, KeyBelow(key, span));
      && node.BinaryNode? && WellFormed(sub, span - 1) && RootHash(pl, t, span) == HashOf(pl, node)
      && NodeConsistent(pl, key, w, node, false, RootHash(pl, sub, span - 1), span)
  {
    hide HashOf;
    WrapAdd(span, 0);
    assert KeyBelow(key, span)[0] == BitAt(key, span);
  }

  /** So `parse_proof` returns the trie's root for every key behind an edge and every value. */
  lemma EdgeLeavesValueOpen(pl: Platform, t: Trie, keyText: string, w: Field)
    requires WellFormed(t, KEY_BITS) && FromHex(pl, keyText).Some?
    requires EdgeOnWay(t, KeyBits(FromHex(pl, keyText).value))
    ensures
      var key := KeyBits(FromHex(pl, keyText).value);
      var nodes := CutAtEdge(pl, t, key, key, w);
      && Parse(pl, keyText, Text(w), Texts(nodes)) == Ok(Some(Text(RootHash(pl, t, KEY_BITS))))
      && Span(nodes) == KEY_BITS && (InnerEdge(t, key) ==> FullLength(nodes))
  {
    var key := KeyBits(FromHex(pl, keyText).value);
    hide Parse, FromHex, Text, Texts, Decode, CutAtEdge, RootHash, Consistent, Top, EdgeOnWay, InnerEdge;
    assert KeyBelow(key, KEY_BITS) == key;
    CutAtEdgeAccepted(pl, t, key, KEY_BITS, w);
    var nodes := CutAtEdge(pl, t, key, key, w);
    DecodeTexts(pl, nodes);
    TextRoundTrip(pl, w);
    ExactAcceptance(pl, keyText, Text(w), Texts(nodes), Text(RootHash(pl, t, KEY_BITS)));
  }

  /** Nor is the length compared with the key: for any key and value the empty proof is accepted with the value
      itself as result, so with a trie's root as value it gives that root. */
  lemma EmptyProofAccepted(pl: Platform, keyText: string, x: Field)
    requires FromHex(pl, keyText).Some?
    ensures Parse(pl, keyText, Text(x), []) == Ok(Some(Text(x)))
  {
    TextRoundTrip(pl, x);
  }

  /** The converse: where no edge on the way to the key ends above the leaves, every accepted proof of full
      length with the trie's root carries the trie's value, or it exhibits a collision. No link is needed. */
  lemma FullLengthBinds(pl: Platform, t: Trie, key: seq<bool>, nodes: seq<Node<Field>>, w: Field)
    requires |key| == KEY_BITS && WellFormed(t, KEY_BITS) && !InnerEdge(t, key)
    requires Consistent(pl, key, w, nodes) && FullLength(nodes)
    requires Top(pl, nodes, w) == RootHash(pl, t, KEY_BITS)
    ensures
      var d := TrieDifference(pl, t, key, nodes, w);
      Lookup(t, key) == Some(w) || Collides(pl, d.x, d.y)
  {
    assert KeyBelow(key, KEY_BITS) == key;
    SuffixBinds(pl, t, key, nodes, w);
  }

  lemma {:induction false} SuffixBinds(pl: Platform, t: Trie, key: seq<bool>, nodes: seq<Node<Field>>, w: Field)
    requires |key| == KEY_BITS && LengthsAtLeast(nodes, 1) && 0 <= Span(nodes) <= KEY_BITS
    requires Consistent(pl, key, w, nodes) && WellFormed(t, Span(nodes)) && !InnerEdge(t, KeyBelow(key, Span(nodes)))
    requires Top(pl, nodes, w) == RootHash(pl, t, Span(nodes))
    ensures
      var k := KeyBelow(key, Span(nodes));
      var d := FirstDifference(Authentic(pl, key, w, nodes), Prove(pl, t, Span(nodes), k));
      Lookup(t, k) == Some(w) || Collides(pl, d.x, d.y)
    decreases t
  {
    if nodes != [] {
      var k := KeyBelow(key, Span(nodes));
      SpanNonnegative(nodes);
      SpanNonnegative(nodes[1..]);
      AuthenticTop(pl, key, w, nodes);
      ProveHead(pl, t, k);
      if HeadAuthentic(pl, key, w, nodes) == RootNode(pl, t, |k|) {
        if t.Branch? {
          SharedBranch(pl, t, key, nodes, w);
          SuffixBinds(pl, Child(t, k), key, nodes[1..], w);
        } else {
          SharedLeafEdge(pl, t, key, nodes, w);
        }
      }
    }
  }

  /** An accepted proof whose authentic first node is the edge over a trie's leaf ends there, with its value. */
  lemma SharedLeafEdge(pl: Platform, t: Trie, key: seq<bool>, nodes: seq<Node<Field>>, w: Field)
    requires |key| == KEY_BITS && nodes != [] && LengthsAtLeast(nodes, 1) && 0 <= Span(nodes) <= KEY_BITS
    requires WellFormed(t, Span(nodes)) && t.Path? && |t.bits| == Span(nodes)
    requires HeadAuthentic(pl, key, w, nodes) == RootNode(pl, t, Span(nodes))
    ensures Lookup(t, KeyBelow(key, Span(nodes))) == Some(w)
  {
    var k, tail := KeyBelow(key, Span(nodes)), nodes[1..];
    if tail != [] { SpanNonnegative(tail); }
    assert nodes[0].len == Span(nodes) && tail == [];
    assert key[KEY_BITS - Span(nodes)..] == k;
    NatInjective(k, t.bits);
    assert k[|t.bits|..] == [];
  }

  /** An accepted proof whose authentic first node is a branch's own continues into the branch's subtrie. */
  lemma SharedBranch(pl: Platform, t: Trie, key: seq<bool>, nodes: seq<Node<Field>>, w: Field)
    requires |key| == KEY_BITS && nodes != [] && LengthsAtLeast(nodes, 1)
    requires 0 <= Span(nodes[1..]) < Span(nodes) <= KEY_BITS
    requires Consistent(pl, key, w, nodes) && WellFormed(t, Span(nodes)) && t.Branch?
    requires HeadAuthentic(pl, key, w, nodes) == RootNode(pl, t, Span(nodes))
    ensures
      var k, rest := KeyBelow(key, Span(nodes)), KeyBelow(key, Span(nodes[1..]));
      var sub, q := Child(t, k), Prove(pl, t, Span(nodes), k);
      && sub < t && Span(nodes[1..]) == Span(nodes) - 1 && k[1..] == rest
      && WellFormed(sub, |rest|) && Consistent(pl, key, w, nodes[1..]) && LengthsAtLeast(nodes[1..], 1)
      && Top(pl, nodes[1..], w) == RootHash(pl, sub, |rest|)
      && Lookup(t, k) == Lookup(sub, rest)
      && FirstDifference(Authentic(pl, key, w, nodes), q)
           == FirstDifference(Authentic(pl, key, w, nodes[1..]), Prove(pl, sub, |rest|, rest))
  {
    var k, rest := KeyBelow(key, Span(nodes)), KeyBelow(key, Span(nodes[1..]));
    var p, q := Authentic(pl, key, w, nodes), Prove(pl, t, |k|, k);
    assert nodes[0].BinaryNode? && k[0] == BitAt(key, Span(nodes)) && k[1..] == rest;
    assert p[0] == HeadAuthentic(pl, key, w, nodes) && p[1..] == Authentic(pl, key, w, nodes[1..]);
    BranchDescends(pl, t, k);
    hide Prove, Authentic, HashOf, Consistent, HeadConsistent, EdgeToLeaf, Lookup, FirstDifference;
    ConsistentUnfold(pl, key, w, nodes);
    SameHead(q[0], p, q);
  }

  /** What ties an accepted proof to a possibly empty trie: full length, and where the way to the key has an
      edge that ends above the leaves also links. */
  ghost predicate Tied(pl: Platform, t: Option<Trie>, key: seq<bool>, nodes: seq<Node<Field>>)
    requires |key| == KEY_BITS
  {
    FullLength(nodes) && (t.Some? && InnerEdge(t.value, key) ==> Linked(pl, key, nodes))
  }

  lemma TiedBinds(pl: Platform, t: Trie, key: seq<bool>, nodes: seq<Node<Field>>, w: Field)
    requires |key| == KEY_BITS && WellFormed(t, KEY_BITS) && Tied(pl, Some(t), key, nodes)
    requires Consistent(pl, key, w, nodes) && Top(pl, nodes, w) == RootHash(pl, t, KEY_BITS)
    ensures
      var d := TrieDifference(pl, t, key, nodes, w);
      Lookup(t, key) == Some(w) || Collides(pl, d.x, d.y)
  {
    hide Consistent, Linked, FullLength, Lookup, Collides, Top, RootHash, TrieDifference, WellFormed;
    if InnerEdge(t, key) {
      AcceptedMatchesTrie(pl, t, key, nodes, w);
    } else {
      FullLengthBinds(pl, t, key, nodes, w);
    }
  }

  /** Soundness of `parse_proof`: if it returns the root of a well-formed trie of height 251 for a proof
      tied to it, the trie maps the key to the value, or the pair found collides. Links alone tie, in any trie. */
  lemma AcceptedProofMatchesTrie(pl: Platform, t: Trie, keyText: string, valueText: Felt, proof: seq<Node<Felt>>)
    requires WellFormed(t, KEY_BITS)
    requires Parse(pl, keyText, valueText, proof) == Ok(Some(Text(RootHash(pl, t, KEY_BITS))))
    requires
      var k, nodes := FromHex(pl, keyText), Decode(pl, proof);
      k.Some? && nodes.Some? ==> Tied(pl, Some(t), KeyBits(k.value), nodes.value)
    ensures
      var k, v, nodes := FromHex(pl, keyText), FromHex(pl, valueText), Decode(pl, proof);
      && k.Some? && v.Some? && nodes.Some?
      && var d := TrieDifference(pl, t, KeyBits(k.value), nodes.value, v.value);
      (Lookup(t, KeyBits(k.value)) == v || Collides(pl, d.x, d.y))
  {
    ExactAcceptance(pl, keyText, valueText, proof, Text(RootHash(pl, t, KEY_BITS)));
    hide Parse, FromHex, Decode, Consistent, Tied, Text, RootHash, Prove, Lookup, Collides, Authentic, Top, WellFormed;
    var key, v, nodes := KeyBits(FromHex(pl, keyText).value), FromHex(pl, valueText).value, Decode(pl, proof).value;
    TextInjective(Top(pl, nodes, v), RootHash(pl, t, KEY_BITS));
    TiedBinds(pl, t, key, nodes, v);
  }
}
