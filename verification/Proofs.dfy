/** `proof.rs`: the proof types and the fold of a proof from the leaf up to the root. */
module Proofs {
  import opened Wrappers
  import opened Numbers
  import opened Platforms
  import opened FeltText
  import opened BitSlices

  /** A proof node, over texts as received or over the field elements they parse to. */
  datatype Node<+F> =
    | BinaryNode(left: F, right: F)
    | EdgeNode(child: F, path: F, len: I64)

  const INVALID_PROOF := -32700
  const INVALID_FIELD := -32701

  /** Levels of the trie a node spans. */
  function Len<F>(node: Node<F>): int {
    if node.BinaryNode? then 1 else node.len
  }

  function Span<F>(nodes: seq<Node<F>>): int {
    if nodes == [] then 0 else Len(nodes[0]) + Span(nodes[1..])
  }

  /** The hash of a node: Pedersen of its two fields, plus the length for an edge. */
  function HashOf(pl: Platform, node: Node<Field>): Field {
    match node
    case BinaryNode(left, right) => pl.pedersen(left, right)
    case EdgeNode(child, path, len) => Plus(pl.pedersen(child, path), ToU64(len))
  }

  /** Field addition */
  function Plus(x: Field, y: Field): Field {
    if x + y < P then x + y else x + y - P
  }

  /** Field addition is addition modulo P. */
  lemma PlusIsSum(x: Field, y: Field)
    ensures Plus(x, y) == (x + y) % P
  {
    DivModUnique(x + y, P, if x + y < P then 0 else 1, Plus(x, y));
  }

  /** The hash of an edge is the Pedersen hash of its child and path plus its length, for every length: a negative
      one counts as its 64-bit pattern. Edges that differ in length alone have different hashes. */
  lemma EdgeHash(pl: Platform, child: Field, path: Field, len: I64, other: I64)
    ensures HashOf(pl, EdgeNode(child, path, len))
         == (pl.pedersen(child, path) + len % 0x1_0000_0000_0000_0000) % P
    ensures len != other ==> HashOf(pl, EdgeNode(child, path, len)) != HashOf(pl, EdgeNode(child, path, other))
  {
    var hash := pl.pedersen(child, path);
    PlusIsSum(hash, ToU64(len));
    DivModUnique(len, U64, if len < 0 then -1 else 0, ToU64(len));
  }

  function ParseNode(pl: Platform, node: Node<Felt>): Option<Node<Field>> {
    match node
    case BinaryNode(left, right) =>
      var l, r := FromHex(pl, left), FromHex(pl, right);
      if l.Some? && r.Some? then Some(BinaryNode(l.value, r.value)) else None
    case EdgeNode(child, path, len) =>
      var c, p := FromHex(pl, child), FromHex(pl, path);
      if c.Some? && p.Some? then Some(EdgeNode(c.value, p.value, len)) else None
  }

  /** Where the fold stands after some nodes: the hash and the height reached, or how it ended early. */
  datatype Walk = Going(hold: Field, pathLen: I64) | Stopped(outcome: Outcome<Option<Felt>>)

  /** `path_len += len` on 64-bit integers; None where the build panics */
  function Advance(pl: Platform, pathLen: I64, len: I64): Option<I64> {
    if pl.overflowChecks && !InI64(pathLen + len) then None else Some(WrapI64(pathLen + len))
  }

  /** The check of the node next to the leaf, when it is an edge. */
  function LeafEdge(pl: Platform, key: seq<bool>, value: Field, len: I64, provided: Field):
    Option<Outcome<Option<Felt>>>
    requires |key| == KEY_BITS
  {
    if ToU64(len) > KEY_BITS then
      // 251 - len underflows; wrapped around it is a mask above 251, which `felt_from_bits` refuses
      Some(if pl.overflowChecks then Panic else Ok(None))
    else if provided != Plus(pl.pedersen(value, Masked(key, KEY_BITS - ToU64(len))), ToU64(len)) then Some(Ok(None))
    else None
  }

  function EdgeStep(pl: Platform, key: seq<bool>, value: Field, node: Node<Felt>, first: bool, pathLen: I64): Walk
    requires |key| == KEY_BITS && node.EdgeNode?
  {
    var parsed := ParseNode(pl, node);
    if parsed.None? then Stopped(Err(INVALID_FIELD))
    else
      var provided := HashOf(pl, parsed.value);
      var leaf := if first then LeafEdge(pl, key, value, node.len, provided) else None;
      if leaf.Some? then Stopped(leaf.value)
      else
        var next := Advance(pl, pathLen, node.len);
        if next.None? then Stopped(Panic) else Going(provided, next.value)
  }

  function BinaryStep(pl: Platform, key: seq<bool>, node: Node<Felt>, hold: Field, pathLen: I64): Walk
    requires |key| == KEY_BITS && node.BinaryNode?
  {
    var next := Advance(pl, pathLen, 1);
    if next.None? then Stopped(Panic)
    else
      var parsed := ParseNode(pl, node);
      if parsed.None? then Stopped(Err(INVALID_FIELD))
      else if !(1 <= next.value <= KEY_BITS) then Stopped(Panic)
      else
        var hash := HashOf(pl, parsed.value);
        if hash != HashOf(pl, Select(parsed.value, key[KEY_BITS - next.value], hold)) then Stopped(Ok(None))
        else Going(hash, next.value)
  }

  /** A binary node with the child a key bit selects replaced. */
  function Select(node: Node<Field>, right: bool, child: Field): Node<Field>
    requires node.BinaryNode?
  {
    if right then BinaryNode(node.left, child) else BinaryNode(child, node.right)
  }

  /** What one more node of the reversed proof does to a walk that is still going. */
  function Step(pl: Platform, key: seq<bool>, value: Field, node: Node<Felt>, first: bool, hold: Field, pathLen: I64):
    Walk
    requires |key| == KEY_BITS
  {
    if node.EdgeNode? then EdgeStep(pl, key, value, node, first, pathLen)
    else BinaryStep(pl, key, node, hold, pathLen)
  }

  /** The fold over a root-first proof: the nodes below the first one, then the first one. */
  function Fold(pl: Platform, key: seq<bool>, value: Field, proof: seq<Node<Felt>>): Walk
    requires |key| == KEY_BITS
  {
    if proof == [] then Going(value, 0)
    else
      match Fold(pl, key, value, proof[1..])
      case Stopped(outcome) => Stopped(outcome)
      case Going(hold, pathLen) =>
        Step(pl, key, value, proof[0], |proof| == 1, hold, pathLen)
  }

  /** `parse_proof` as a function of its arguments. The key always has 251 bits, so the source's early return
      for another length is never taken. */
  function Parse(pl: Platform, key: string, value: Felt, proof: seq<Node<Felt>>): Outcome<Option<Felt>> {
    var k, v := FromHex(pl, key), FromHex(pl, value);
    if k.None? || v.None? then Err(INVALID_FIELD)
    else
      match Fold(pl, KeyBits(k.value), v.value, proof)
      case Stopped(outcome) => outcome
      case Going(hold, _) => Ok(Some(Text(hold)))
  }

  /** The edge arm of the loop; on `Going`, its new `hold` and `path_len`. */
  method HashEdge(pl: Platform, key: seq<bool>, value: Field, node: Node<Felt>, first: bool, pathLen: I64)
    returns (w: Walk)
    requires |key| == KEY_BITS && node.EdgeNode?
    ensures w == EdgeStep(pl, key, value, node, first, pathLen)
  {
    hide FromHex, Masked, WrapI64;
    var childFelt, pathValue, len := FromHex(pl, node.child), FromHex(pl, node.path), node.len;
    if childFelt.None? || pathValue.None? { return Stopped(Err(INVALID_FIELD)); }
    var providedHash := Plus(pl.pedersen(childFelt.value, pathValue.value), ToU64(len));
    if first {
      if ToU64(len) > KEY_BITS && pl.overflowChecks { return Stopped(Panic); }
      var mask := SubU64(KEY_BITS, ToU64(len));
      var maskedKey := FeltFromBits(key, Some(mask));
      if maskedKey.None? { return Stopped(Ok(None)); }
      var computedHash := Plus(pl.pedersen(value, maskedKey.value), ToU64(len));
      if providedHash != computedHash { return Stopped(Ok(None)); }
    }
    if pl.overflowChecks && !InI64(pathLen + len) { return Stopped(Panic); }
    w := Going(providedHash, WrapI64(pathLen + len));
  }

  /** The binary arm of the loop. */
  method HashBinary(pl: Platform, key: seq<bool>, node: Node<Felt>, hold: Field, pathLen: I64)
    returns (w: Walk)
    requires |key| == KEY_BITS && node.BinaryNode?
    ensures w == BinaryStep(pl, key, node, hold, pathLen)
  {
    if pl.overflowChecks && !InI64(pathLen + 1) { return Stopped(Panic); }
    var height := WrapI64(pathLen + 1);
    var left, right := FromHex(pl, node.left), FromHex(pl, node.right);
    if left.None? || right.None? { return Stopped(Err(INVALID_FIELD)); }
    if ToU64(height) > KEY_BITS && pl.overflowChecks { return Stopped(Panic); }
    var index := SubU64(KEY_BITS, ToU64(height));
    if index >= |key| { return Stopped(Panic); }
    var expectedHash := if key[index]
      then pl.pedersen(left.value, hold)
      else pl.pedersen(hold, right.value);
    var hash := pl.pedersen(left.value, right.value);
    if hash != expectedHash { return Stopped(Ok(None)); }
    w := Going(hash, height);
  }

  /** `parse_proof`: the loop over the reversed proof with its two running variables. */
  method ParseProof(pl: Platform, keyText: string, valueText: Felt, proof: seq<Node<Felt>>)
    returns (r: Outcome<Option<Felt>>)
    ensures r == Parse(pl, keyText, valueText, proof)
  {
    hide EdgeStep, BinaryStep;
    var keyField := FromHex(pl, keyText);
    if keyField.None? { return Err(INVALID_FIELD); }
    var key := FeltToBits(Numbers.ToBytes(keyField.value, 32));
    var valueField := FromHex(pl, valueText);
    if valueField.None? { return Err(INVALID_FIELD); }
    var value := valueField.value;
    var hold, pathLen: I64 := value, 0;
    for i := 0 to |proof|
      invariant Fold(pl, key, value, proof[|proof| - i..]) == Going(hold, pathLen)
    {
      var node := proof[|proof| - 1 - i];
      var step;
      if node.EdgeNode? {
        step := HashEdge(pl, key, value, node, i == 0, pathLen);
      } else {
        step := HashBinary(pl, key, node, hold, pathLen);
      }
      FoldStep(pl, keyText, valueText, key, value, proof, i, hold, pathLen);
      match step {
        case Stopped(outcome) => return outcome;
        case Going(hash, height) => hold, pathLen := hash, height;
      }
    }
    assert proof[|proof| - |proof|..] == proof;
    r := Ok(Some(Text(hold)));
  }

  lemma FoldStep(pl: Platform, keyText: string, valueText: Felt, key: seq<bool>, value: Field, proof: seq<Node<Felt>>,
                 i: nat, hold: Field, pathLen: I64)
    requires i < |proof| && FromHex(pl, valueText) == Some(value)
    requires FromHex(pl, keyText).Some? && key == KeyBits(FromHex(pl, keyText).value)
    requires Fold(pl, key, value, proof[|proof| - i..]) == Going(hold, pathLen)
    ensures
      var step := Step(pl, key, value, proof[|proof| - 1 - i], i == 0, hold, pathLen);
      && (step.Going? ==> Fold(pl, key, value, proof[|proof| - 1 - i..]) == step)
      && (step.Stopped? ==> Parse(pl, keyText, valueText, proof) == step.outcome)
  {
    StoppedStays(pl, key, value, proof, |proof| - 1 - i);
    var suffix := proof[|proof| - 1 - i..];
    assert suffix[1..] == proof[|proof| - i..];
  }

  lemma {:induction false} StoppedStays(pl: Platform, key: seq<bool>, value: Field, proof: seq<Node<Felt>>, k: nat)
    requires |key| == KEY_BITS && k <= |proof|
    ensures Fold(pl, key, value, proof[k..]).Stopped? ==>
      Fold(pl, key, value, proof) == Fold(pl, key, value, proof[k..])
  {
    if k > 0 {
      StoppedStays(pl, key, value, proof[1..], k - 1);
      assert proof[1..][k - 1..] == proof[k..];
    } else {
      assert proof[0..] == proof;
    }
  }
}
