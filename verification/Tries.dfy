/** The binary Merkle-Patricia tries whose roots the proofs are about: lookup, hash and honest prover. */
module Tries {
  import opened Wrappers
  import opened Numbers
  import opened Platforms
  import opened Proofs

  datatype Trie =
    | Leaf(value: Field)
    | Branch(left: Trie, right: Trie)
    | Path(bits: seq<bool>, child: Trie)

  /** A trie all of whose leaves are `height` levels down. */
  predicate WellFormed(t: Trie, height: nat) {
    match t
    case Leaf(_) => height == 0
    case Branch(left, right) => height > 0 && WellFormed(left, height - 1) && WellFormed(right, height - 1)
    case Path(bits, child) => 1 <= |bits| <= height && WellFormed(child, height - |bits|)
  }

  function Lookup(t: Trie, key: seq<bool>): Option<Field> {
    match t
    case Leaf(value) => if key == [] then Some(value) else None
    case Branch(left, right) =>
      if key == [] then None else if key[0] then Lookup(right, key[1..]) else Lookup(left, key[1..])
    case Path(bits, child) => if bits <= key then Lookup(child, key[|bits|..]) else None
  }

  /** The number of an edge's path. */
  function PathValue(bits: seq<bool>): (x: Field)
    requires |bits| <= KEY_BITS
    ensures x == NatOfBits(bits)
  {
    NatBound(bits);
    Pow2Monotone(|bits|, KEY_BITS);
    FieldBounds();
    NatOfBits(bits)
  }

  function RootHash(pl: Platform, t: Trie, height: nat): Field
    requires height <= KEY_BITS && WellFormed(t, height)
    decreases t
  {
    if t.Leaf? then t.value else HashOf(pl, RootNode(pl, t, height))
  }

  /** The proof node of a trie that is not a leaf. */
  function RootNode(pl: Platform, t: Trie, height: nat): Node<Field>
    requires height <= KEY_BITS && WellFormed(t, height) && !t.Leaf?
    decreases t, 0
  {
    match t
    case Branch(left, right) => BinaryNode(RootHash(pl, left, height - 1), RootHash(pl, right, height - 1))
    case Path(bits, child) => EdgeNode(RootHash(pl, child, height - |bits|), PathValue(bits), |bits|)
  }

  /** The nodes an honest prover lists for a key, ordered from the root towards the target. */
  function Prove(pl: Platform, t: Trie, height: nat, key: seq<bool>): seq<Node<Field>>
    requires height == |key| <= KEY_BITS && WellFormed(t, height)
  {
    if t.Leaf? then []
    else if t.Branch? then
      [RootNode(pl, t, height)] + Prove(pl, if key[0] then t.right else t.left, height - 1, key[1..])
    else if t.bits <= key then
      [RootNode(pl, t, height)] + Prove(pl, t.child, height - |t.bits|, key[|t.bits|..])
    else [RootNode(pl, t, height)]
  }
}
