/** Results of the proof checker written out in the two hashes and in numbers, without the functions the other
    theorems share. */
module Formulas {
  import opened Wrappers
  import opened Numbers
  import opened Platforms
  import opened FeltText
  import opened BitSlices
  import opened Proofs
  import opened Acceptance
  import opened Tries
  import opened Soundness
  import opened Extent

  /** The root over a value, from its key, the siblings at binary nodes and the lengths of edges. The other child
      of a binary node, and the child and path of an edge, are not looked at. */
  function Rebuilt(pl: Platform, nodes: seq<Node<Field>>, key: seq<bool>, value: Field): Field
    requires LengthsAtLeast(nodes, 1) && Span(nodes) == |key| <= KEY_BITS
  {
    if nodes == [] then value
    else
      SpanNonnegative(nodes[1..]);
      match nodes[0]
      case BinaryNode(left, right) =>
        var below := Rebuilt(pl, nodes[1..], key[1..], value);
        if key[0] then pl.pedersen(left, below) else pl.pedersen(below, right)
      case EdgeNode(_, _, len) =>
        var below := Rebuilt(pl, nodes[1..], key[len..], value);
        (pl.pedersen(below, PathValue(key[..len])) + len) % P
  }

  /** The top of a path is the root rebuilt from it. */
  lemma {:induction false} PathRebuilds(pl: Platform, nodes: seq<Node<Field>>, key: seq<bool>, value: Field)
    requires |key| <= KEY_BITS && Authenticates(pl, nodes, key, value)
    ensures LengthsAtLeast(nodes, 1) && Span(nodes) == |key|
    ensures Top(pl, nodes, value) == Rebuilt(pl, nodes, key, value)
  {
    AuthenticatesWhole(pl, nodes, key, value);
    if nodes != [] {
      PathRebuilds(pl, nodes[1..], key[Len(nodes[0])..], value);
      if nodes[0].EdgeNode? {
        EdgeInRange(pl, nodes[0].child, nodes[0].path, nodes[0].len);
      }
    }
  }

  lemma EdgeInRange(pl: Platform, child: Field, path: Field, len: I64)
    requires 0 <= len <= KEY_BITS
    ensures HashOf(pl, EdgeNode(child, path, len)) == (pl.pedersen(child, path) + len) % P
  {
    EdgeHash(pl, child, path, len, len);
    DivModUnique(len, U64, 0, len);
  }

  /** Two lists with the same shapes, lengths and siblings rebuild one root. */
  predicate SameWitness(key: seq<bool>, p: seq<Node<Field>>, q: seq<Node<Field>>)
    requires LengthsAtLeast(p, 1) && Span(p) == |key|
  {
    if p == [] || q == [] then p == q
    else
      SpanNonnegative(p[1..]);
      && Len(p[0]) == Len(q[0])
      && (match (p[0], q[0])
          case (BinaryNode(left, right), BinaryNode(left', right')) => if key[0] then left == left' else right == right'
          case (EdgeNode(_, _, _), EdgeNode(_, _, _)) => true
          case _ => false)
      && SameWitness(key[Len(p[0])..], p[1..], q[1..])
  }

  lemma {:induction false} SameWitnessSameRoot(pl: Platform, key: seq<bool>, p: seq<Node<Field>>,
                                               q: seq<Node<Field>>, value: Field)
    requires LengthsAtLeast(p, 1) && Span(p) == |key| <= KEY_BITS && SameWitness(key, p, q)
    ensures LengthsAtLeast(q, 1) && Span(q) == |key|
    ensures Rebuilt(pl, p, key, value) == Rebuilt(pl, q, key, value)
  {
    if p != [] {
      SpanNonnegative(p[1..]);
      SameWitnessSameRoot(pl, key[Len(p[0])..], p[1..], q[1..], value);
      assert forall i :: 0 < i < |q| ==> q[i] == q[1..][i - 1];
    }
  }

  /** The authentic form of a suffix differs from it only in what is not looked at. */
  lemma {:induction false} AuthenticWitness(pl: Platform, key: seq<bool>, value: Field, nodes: seq<Node<Field>>)
    requires |key| == KEY_BITS && LengthsAtLeast(nodes, 1) && Span(nodes) <= KEY_BITS
    ensures 0 <= Span(nodes)
    ensures SameWitness(KeyBelow(key, Span(nodes)), nodes, Authentic(pl, key, value, nodes))
  {
    SpanNonnegative(nodes);
    if nodes != [] {
      SpanNonnegative(nodes[1..]);
      AuthenticWitness(pl, key, value, nodes[1..]);
      var k := KeyBelow(key, Span(nodes));
      assert k[Len(nodes[0])..] == KeyBelow(key, Span(nodes[1..]));
      assert Authentic(pl, key, value, nodes)[1..] == Authentic(pl, key, value, nodes[1..]);
      if nodes[0].BinaryNode? { assert k[0] == BitAt(key, Span(nodes)); }
    }
  }

  /** What an accepted proof returns, written out: if it is linked, the text of the root rebuilt from the value, the
      key's bits, the siblings and the lengths. */
  lemma AcceptedRebuilds(pl: Platform, keyText: string, valueText: Felt, proof: seq<Node<Felt>>, r: Felt)
    requires Parse(pl, keyText, valueText, proof) == Ok(Some(r))
    requires
      var k, nodes := FromHex(pl, keyText), Decode(pl, proof);
      k.Some? && nodes.Some? ==> Linked(pl, KeyBits(k.value), nodes.value)
    ensures
      var k, v, nodes := FromHex(pl, keyText), FromHex(pl, valueText), Decode(pl, proof);
      && k.Some? && v.Some? && nodes.Some? && FullLength(nodes.value)
      && r == Text(Rebuilt(pl, nodes.value, KeyBits(k.value), v.value))
  {
    ExactAcceptance(pl, keyText, valueText, proof, r);
    hide Parse, FromHex, Decode, Text, Consistent, EdgeLinked;
    var key, v := KeyBits(FromHex(pl, keyText).value), FromHex(pl, valueText).value;
    var nodes := Decode(pl, proof).value;
    AcceptedIsPath(pl, key, v, nodes);
    assert KeyBelow(key, KEY_BITS) == key;
    AuthenticWitness(pl, key, v, nodes);
    SameWitnessSameRoot(pl, key, nodes, Authentic(pl, key, v, nodes), v);
    PathRebuilds(pl, Authentic(pl, key, v, nodes), key, v);
  }

  /** The root of a trie, written out. */
  function Committed(pl: Platform, t: Trie, height: nat): Field
    requires height <= KEY_BITS && WellFormed(t, height)
  {
    match t
    case Leaf(value) => value
    case Branch(left, right) => pl.pedersen(Committed(pl, left, height - 1), Committed(pl, right, height - 1))
    case Path(bits, child) =>
      (pl.pedersen(Committed(pl, child, height - |bits|), PathValue(bits)) + |bits|) % P
  }

  lemma {:induction false} RootIsCommitted(pl: Platform, t: Trie, height: nat)
    requires height <= KEY_BITS && WellFormed(t, height)
    ensures RootHash(pl, t, height) == Committed(pl, t, height)
    decreases t
  {
    match t
    case Leaf(_) =>
    case Branch(left, right) =>
      RootIsCommitted(pl, left, height - 1);
      RootIsCommitted(pl, right, height - 1);
    case Path(bits, child) =>
      hide HashOf, PathValue;
      RootIsCommitted(pl, child, height - |bits|);
      EdgeInRange(pl, RootHash(pl, child, height - |bits|), PathValue(bits), |bits|);
  }

  /** The proof of one edge: for every key, value and length from 0 to 251, `parse_proof` returns the text of
      ped(value, low bits of the key) + length. */
  lemma OneEdgeProof(pl: Platform, keyText: string, value: Field, len: nat)
    requires len <= KEY_BITS && FromHex(pl, keyText).Some?
    ensures
      var low: Field := Low(FromHex(pl, keyText).value, len);
      Parse(pl, keyText, Text(value), [EdgeNode(Text(value), Text(low), len)])
        == Ok(Some(Text((pl.pedersen(value, low) + len) % P)))
  {
    hide FromHex, Parse, Text, KeyBits, HashOf, Low, Masked, Consistent;
    var x := FromHex(pl, keyText).value;
    var low := Low(x, len);
    LowIsMasked(x, len);
    EdgeOfAnyLength(pl, KeyBits(x), value, len);
    EdgeInRange(pl, value, low, len);
    OneNodeReturns(pl, keyText, value, EdgeNode(value, low, len), Text(HashOf(pl, EdgeNode(value, low, len))));
  }

  /** What a proof of one node returns. */
  lemma OneNodeReturns(pl: Platform, keyText: string, value: Field, node: Node<Field>, r: Felt)
    requires FromHex(pl, keyText).Some?
    ensures Parse(pl, keyText, Text(value), [NodeText(node)]) == Ok(Some(r)) <==>
      Consistent(pl, KeyBits(FromHex(pl, keyText).value), value, [node]) && r == Text(HashOf(pl, node))
  {
    hide FromHex, Parse, Text, KeyBits, HashOf, Consistent, NodeText, Decode;
    TextsOfOne(node);
    DecodeTexts(pl, [node]);
    TextRoundTrip(pl, value);
    ExactAcceptance(pl, keyText, Text(value), Texts([node]), r);
  }

  /** The low bits of a number. */
  function Low(x: Field, bits: nat): (low: Field)
    ensures low == x % Pow2(bits)
  {
    RemainderBelow(x, Pow2(bits));
    x % Pow2(bits)
  }

  lemma RemainderBelow(x: nat, p: nat)
    requires p >= 1
    ensures 0 <= x % p <= x
  {
    if x < p { DivModUnique(x, p, 0, x); }
  }

  lemma LowIsMasked(x: Field, len: nat)
    requires len <= KEY_BITS
    ensures Low(x, len) == Masked(KeyBits(x), KEY_BITS - len)
  {
    MaskedKeyIsRemainder(x, KEY_BITS - len);
  }

  lemma EdgeOfAnyLength(pl: Platform, key: seq<bool>, value: Field, len: nat)
    requires |key| == KEY_BITS && len <= KEY_BITS
    ensures Consistent(pl, key, value, [EdgeToLeaf(key, value, len)])
  {
    hide HashOf, Masked;
    ConsistentCons(pl, key, value, EdgeToLeaf(key, value, len), []);
    assert [EdgeToLeaf(key, value, len)] + [] == [EdgeToLeaf(key, value, len)];
  }

  lemma TextsOfOne(node: Node<Field>)
    ensures Texts([node]) == [NodeText(node)]
  {
    assert [node][1..] == [];
  }

  /** The proof of one binary node: the lowest bit of the key decides on which side of its sibling the value is. */
  lemma OneBinaryProof(pl: Platform, keyText: string, value: Field, left: Field, right: Field, r: Felt)
    requires FromHex(pl, keyText).Some?
    ensures
      Parse(pl, keyText, Text(value), [BinaryNode(Text(left), Text(right))]) == Ok(Some(r)) <==>
        && pl.pedersen(left, right)
             == (if FromHex(pl, keyText).value % 2 == 1 then pl.pedersen(left, value) else pl.pedersen(value, right))
        && r == Text(pl.pedersen(left, right))
  {
    var x := FromHex(pl, keyText).value;
    var node := BinaryNode(left, right);
    LowestBit(x);
    hide FromHex, Parse, Text, KeyBits;
    BinaryAlone(pl, KeyBits(x), value, node);
    OneNodeReturns(pl, keyText, value, node, r);
  }

  lemma LowestBit(x: Field)
    ensures KeyBits(x)[KEY_BITS - 1] <==> x % 2 == 1
  {
    KeyBitsAreLowBits(x);
  }

  lemma BinaryAlone(pl: Platform, key: seq<bool>, value: Field, node: Node<Field>)
    requires |key| == KEY_BITS && node.BinaryNode?
    ensures Consistent(pl, key, value, [node])
       <==> HashOf(pl, node) == HashOf(pl, Select(node, key[KEY_BITS - 1], value))
  {
    hide HashOf;
    ConsistentCons(pl, key, value, node, []);
    assert [node] + [] == [node];
    WrapAdd(1, 0);
  }
}
