/** Which proofs `parse_proof` accepts, stated on all nodes at once and without the fold. */
module Acceptance {
  import opened Wrappers
  import opened Numbers
  import opened Platforms
  import opened FeltText
  import opened BitSlices
  import opened Proofs

  /** The hash of the first node, or the value itself for an empty proof. */
  function Top(pl: Platform, nodes: seq<Node<Field>>, value: Field): Field {
    if nodes == [] then value else HashOf(pl, nodes[0])
  }

  function Decode(pl: Platform, proof: seq<Node<Felt>>): Option<seq<Node<Field>>> {
    if proof == [] then Some([])
    else
      var head, tail := ParseNode(pl, proof[0]), Decode(pl, proof[1..]);
      if head.Some? && tail.Some? then Some([head.value] + tail.value) else None
  }

  /** A node with its fields written canonically. */
  function NodeText(node: Node<Field>): Node<Felt> {
    match node
    case BinaryNode(left, right) => BinaryNode(Text(left), Text(right))
    case EdgeNode(child, path, len) => EdgeNode(Text(child), Text(path), len)
  }

  function Texts(nodes: seq<Node<Field>>): seq<Node<Felt>> {
    if nodes == [] then [] else [NodeText(nodes[0])] + Texts(nodes[1..])
  }

  lemma {:induction false} DecodeTexts(pl: Platform, nodes: seq<Node<Field>>)
    ensures Decode(pl, Texts(nodes)) == Some(nodes)
  {
    if nodes != [] {
      DecodeTexts(pl, nodes[1..]);
      NodeRoundTrip(pl, nodes[0]);
      assert nodes == [nodes[0]] + nodes[1..];
    }
  }

  lemma NodeRoundTrip(pl: Platform, node: Node<Field>)
    ensures ParseNode(pl, NodeText(node)) == Some(node)
  {
    hide Text, FromHex;
    match node
    case BinaryNode(left, right) => TextRoundTrip(pl, left); TextRoundTrip(pl, right);
    case EdgeNode(child, path, len) => TextRoundTrip(pl, child); TextRoundTrip(pl, path);
  }

  /** The key bit that picks the child at a binary node, given the levels from it to the leaf. */
  predicate BitAt(key: seq<bool>, span: int)
    requires |key| == KEY_BITS
  {
    1 <= span <= KEY_BITS && key[KEY_BITS - span]
  }

  /** A binary node at height `WrapI64(span)` hashes the same with its selected child replaced by `below`. */
  predicate BinaryMatches(pl: Platform, key: seq<bool>, node: Node<Field>, span: int, below: Field)
    requires |key| == KEY_BITS && node.BinaryNode?
  {
    && 1 <= WrapI64(span) <= KEY_BITS
    && HashOf(pl, node) == HashOf(pl, Select(node, BitAt(key, WrapI64(span)), below))
  }

  /** The edge a trie would have over the leaf: the value as child, the low bits of the key as path. */
  function EdgeToLeaf(key: seq<bool>, value: Field, len: I64): Node<Field>
    requires |key| == KEY_BITS && 0 <= len <= KEY_BITS
  {
    EdgeNode(value, Masked(key, KEY_BITS - len), len)
  }

  predicate LeafMatches(pl: Platform, key: seq<bool>, value: Field, node: Node<Field>)
    requires |key| == KEY_BITS && node.EdgeNode?
  {
    0 <= node.len <= KEY_BITS && HashOf(pl, node) == HashOf(pl, EdgeToLeaf(key, value, node.len))
  }

  /** What acceptance demands of a node: nothing of an edge unless it is next to the leaf, apart from sums
      that fit in a build that checks for overflow. `below` is the hash beneath the node and `span` the
      number of levels from the node to the leaf. */
  predicate NodeConsistent(pl: Platform, key: seq<bool>, value: Field, node: Node<Field>, last: bool, below: Field,
                           span: int)
    requires |key| == KEY_BITS
  {
    && (last && node.EdgeNode? ==> LeafMatches(pl, key, value, node))
    && (node.BinaryNode? ==> BinaryMatches(pl, key, node, span, below))
    && (pl.overflowChecks ==> InI64(span))
  }

  /** The demands on the first node of a proof or of a suffix. */
  predicate HeadConsistent(pl: Platform, key: seq<bool>, value: Field, nodes: seq<Node<Field>>)
    requires |key| == KEY_BITS && nodes != []
  {
    NodeConsistent(pl, key, value, nodes[0], |nodes| == 1, Top(pl, nodes[1..], value), Span(nodes))
  }

  /** Every node of the proof meets those demands. */
  ghost predicate Consistent(pl: Platform, key: seq<bool>, value: Field, nodes: seq<Node<Field>>)
    requires |key| == KEY_BITS
  {
    forall i {:trigger HeadConsistent(pl, key, value, nodes[i..])} :: 0 <= i < |nodes| ==>
      HeadConsistent(pl, key, value, nodes[i..])
  }

  lemma ConsistentUnfold(pl: Platform, key: seq<bool>, value: Field, nodes: seq<Node<Field>>)
    requires |key| == KEY_BITS && nodes != []
    ensures Consistent(pl, key, value, nodes)
       <==> HeadConsistent(pl, key, value, nodes) && Consistent(pl, key, value, nodes[1..])
  {
    var tail := nodes[1..];
    assert nodes[0..] == nodes;
    if Consistent(pl, key, value, nodes) {
      forall i | 0 <= i < |tail| ensures HeadConsistent(pl, key, value, tail[i..]) {
        assert tail[i..] == nodes[i + 1..];
      }
    } else {
      var i :| 0 <= i < |nodes| && !HeadConsistent(pl, key, value, nodes[i..]);
      if i > 0 { assert tail[i - 1..] == nodes[i..]; }
    }
  }

  lemma DecodeLength(pl: Platform, proof: seq<Node<Felt>>)
    ensures Decode(pl, proof).Some? ==> |Decode(pl, proof).value| == |proof|
  {
  }

  /** The fold reaches the top of a proof exactly when all its nodes parse and are consistent; it then
      holds the first node's hash and the sum of the lengths as a 64-bit integer. */
  lemma {:induction false} FoldGoing(pl: Platform, key: seq<bool>, value: Field, proof: seq<Node<Felt>>)
    requires |key| == KEY_BITS
    ensures Fold(pl, key, value, proof).Going?
       <==> Decode(pl, proof).Some? && Consistent(pl, key, value, Decode(pl, proof).value)
    ensures Fold(pl, key, value, proof).Going? ==>
      Fold(pl, key, value, proof) ==
        Going(Top(pl, Decode(pl, proof).value, value), WrapI64(Span(Decode(pl, proof).value)))
  {
    if proof != [] {
      FoldGoing(pl, key, value, proof[1..]);
      var head, rest := ParseNode(pl, proof[0]), Decode(pl, proof[1..]);
      if head.Some? && rest.Some? {
        DecodeLength(pl, proof[1..]);
        FoldCons(pl, key, value, proof, head.value, rest.value);
      } else {
        UnparsedStops(pl, key, value, proof);
      }
    }
  }

  lemma UnparsedStops(pl: Platform, key: seq<bool>, value: Field, proof: seq<Node<Felt>>)
    requires |key| == KEY_BITS && proof != [] && Decode(pl, proof).None?
    requires Fold(pl, key, value, proof[1..]).Going? ==> Decode(pl, proof[1..]).Some?
    ensures Fold(pl, key, value, proof).Stopped?
  {
    assert Fold(pl, key, value, proof[1..]).Going? ==> ParseNode(pl, proof[0]).None?;
  }

  /** One more node above a fold that is characterised already. */
  lemma FoldCons(pl: Platform, key: seq<bool>, value: Field, proof: seq<Node<Felt>>, node: Node<Field>,
                 tail: seq<Node<Field>>)
    requires |key| == KEY_BITS && proof != [] && ParseNode(pl, proof[0]) == Some(node) && |tail| == |proof| - 1
    requires Fold(pl, key, value, proof[1..]).Going? <==> Consistent(pl, key, value, tail)
    requires Consistent(pl, key, value, tail) ==>
      Fold(pl, key, value, proof[1..]) == Going(Top(pl, tail, value), WrapI64(Span(tail)))
    ensures Fold(pl, key, value, proof).Going? <==> Consistent(pl, key, value, [node] + tail)
    ensures Fold(pl, key, value, proof).Going? ==>
      Fold(pl, key, value, proof) == Going(Top(pl, [node] + tail, value), WrapI64(Span([node] + tail)))
  {
    hide *;
    ConsistentCons(pl, key, value, node, tail);
    if Consistent(pl, key, value, tail) {
      SpanInRange(pl, key, value, tail);
      FoldOne(pl, key, value, proof, node, |proof| == 1, Top(pl, tail, value), Span(tail));
    } else {
      FoldStays(pl, key, value, proof);
    }
  }

  lemma FoldOne(pl: Platform, key: seq<bool>, value: Field, proof: seq<Node<Felt>>, node: Node<Field>,
                last: bool, below: Field, span: int)
    requires |key| == KEY_BITS && proof != [] && ParseNode(pl, proof[0]) == Some(node) && last == (|proof| == 1)
    requires Fold(pl, key, value, proof[1..]) == Going(below, WrapI64(span))
    requires pl.overflowChecks ==> InI64(span)
    ensures Fold(pl, key, value, proof).Going? <==> NodeConsistent(pl, key, value, node, last, below, Len(node) + span)
    ensures Fold(pl, key, value, proof).Going? ==>
      Fold(pl, key, value, proof) == Going(HashOf(pl, node), WrapI64(Len(node) + span))
  {
    hide Step, NodeConsistent, WrapI64;
    StepGoing(pl, key, value, proof[0], node, last, below, span);
  }

  lemma FoldStays(pl: Platform, key: seq<bool>, value: Field, proof: seq<Node<Felt>>)
    requires |key| == KEY_BITS && proof != [] && Fold(pl, key, value, proof[1..]).Stopped?
    ensures Fold(pl, key, value, proof).Stopped?
  {
  }

  lemma SpanInRange(pl: Platform, key: seq<bool>, value: Field, nodes: seq<Node<Field>>)
    requires |key| == KEY_BITS && Consistent(pl, key, value, nodes)
    ensures pl.overflowChecks ==> InI64(Span(nodes))
  {
    if nodes != [] {
      assert nodes[0..] == nodes;
      assert HeadConsistent(pl, key, value, nodes[0..]);
    }
  }

  lemma ConsistentCons(pl: Platform, key: seq<bool>, value: Field, node: Node<Field>, tail: seq<Node<Field>>)
    requires |key| == KEY_BITS
    ensures Consistent(pl, key, value, [node] + tail) <==>
      && NodeConsistent(pl, key, value, node, tail == [], Top(pl, tail, value), Len(node) + Span(tail))
      && Consistent(pl, key, value, tail)
    ensures Span([node] + tail) == Len(node) + Span(tail) && Top(pl, [node] + tail, value) == HashOf(pl, node)
  {
    var nodes := [node] + tail;
    assert nodes[1..] == tail;
    ConsistentUnfold(pl, key, value, nodes);
  }

  lemma StepGoing(pl: Platform, key: seq<bool>, value: Field, text: Node<Felt>, node: Node<Field>,
                  last: bool, below: Field, span: int)
    requires |key| == KEY_BITS && ParseNode(pl, text) == Some(node)
    requires pl.overflowChecks ==> InI64(span)
    ensures
      var step := Step(pl, key, value, text, last, below, WrapI64(span));
      && (step.Going? <==> NodeConsistent(pl, key, value, node, last, below, Len(node) + span))
      && (step.Going? ==> step == Going(HashOf(pl, node), WrapI64(Len(node) + span)))
  {
    hide FromHex, Masked;
    WrapAdd(span, Len(node));
  }

  /** Exact acceptance, over every input: `parse_proof` returns a hash precisely when everything parses and
      the nodes are consistent, and the hash is then the text of the first node's, or of the value. */
  lemma ExactAcceptance(pl: Platform, keyText: string, valueText: Felt, proof: seq<Node<Felt>>, r: Felt)
    ensures Parse(pl, keyText, valueText, proof) == Ok(Some(r)) <==>
      var k, v, nodes := FromHex(pl, keyText), FromHex(pl, valueText), Decode(pl, proof);
      && k.Some? && v.Some? && nodes.Some?
      && Consistent(pl, KeyBits(k.value), v.value, nodes.value)
      && r == Text(Top(pl, nodes.value, v.value))
  {
    var k, v := FromHex(pl, keyText), FromHex(pl, valueText);
    if k.Some? && v.Some? {
      FoldGoing(pl, KeyBits(k.value), v.value, proof);
      FoldStopsShort(pl, KeyBits(k.value), v.value, proof);
    }
  }

  lemma {:induction false} FoldStopsShort(pl: Platform, key: seq<bool>, value: Field, proof: seq<Node<Felt>>)
    requires |key| == KEY_BITS
    ensures Fold(pl, key, value, proof).Stopped? ==>
      var outcome := Fold(pl, key, value, proof).outcome;
      outcome in {Panic, Ok(None), Err(INVALID_FIELD)}
  {
    if proof != [] { FoldStopsShort(pl, key, value, proof[1..]); }
  }

  lemma {:induction false} SpanSplit<F>(nodes: seq<Node<F>>, i: nat)
    requires i <= |nodes|
    ensures Span(nodes) == Span(nodes[..i]) + Span(nodes[i..])
  {
    if i > 0 {
      SpanSplit(nodes[1..], i - 1);
      assert nodes[..i][1..] == nodes[1..][..i - 1] && nodes[1..][i - 1..] == nodes[i..];
    } else {
      assert nodes[0..] == nodes;
    }
  }

  predicate LengthsAtLeast<F>(nodes: seq<Node<F>>, least: int) {
    forall i :: 0 <= i < |nodes| && nodes[i].EdgeNode? ==> nodes[i].len >= least
  }

  /** Nonnegative lengths that sum to no more than the key. */
  predicate SpanFits<F>(nodes: seq<Node<F>>) {
    LengthsAtLeast(nodes, 0) && Span(nodes) <= KEY_BITS
  }

  lemma {:induction false} SpanNonnegative<F>(nodes: seq<Node<F>>)
    requires LengthsAtLeast(nodes, 0)
    ensures Span(nodes) >= 0
    ensures nodes != [] ==> Span(nodes) >= Len(nodes[0])
  {
    if nodes != [] { SpanNonnegative(nodes[1..]); }
  }

  /** Key-index safety: with nonnegative lengths that sum to at most 251 no build panics, no sum wraps,
      the fold is the same with and without overflow checks, and the running length is the height. */
  lemma {:induction false} KeyIndexSafety(pl: Platform, key: seq<bool>, value: Field, proof: seq<Node<Felt>>)
    requires |key| == KEY_BITS
    requires SpanFits(proof)
    ensures Fold(pl, key, value, proof) != Stopped(Panic)
    ensures Fold(pl, key, value, proof) == Fold(pl.(overflowChecks := !pl.overflowChecks), key, value, proof)
    ensures Fold(pl, key, value, proof).Going? ==> Fold(pl, key, value, proof).pathLen == Span(proof)
  {
    if proof != [] {
      SpanNonnegative(proof);
      SpanNonnegative(proof[1..]);
      KeyIndexSafety(pl, key, value, proof[1..]);
      match Fold(pl, key, value, proof[1..])
      case Stopped(_) =>
      case Going(hold, pathLen) => StepSafety(pl, key, value, proof[0], |proof| == 1, hold, pathLen);
    }
  }

  lemma SameParsing(pl: Platform)
    ensures forall text :: FromHex(pl, text) == FromHex(pl.(overflowChecks := !pl.overflowChecks), text)
  {
  }

  lemma StepSafety(pl: Platform, key: seq<bool>, value: Field, node: Node<Felt>, first: bool, hold: Field, pathLen: I64)
    requires |key| == KEY_BITS
    requires 0 <= pathLen <= pathLen + Len(node) <= KEY_BITS
    ensures
      var step := Step(pl, key, value, node, first, hold, pathLen);
      && step != Stopped(Panic)
      && step == Step(pl.(overflowChecks := !pl.overflowChecks), key, value, node, first, hold, pathLen)
      && (step.Going? ==> step.pathLen == pathLen + Len(node))
  {
    SameParsing(pl);
    hide FromHex, Masked;
    var other := pl.(overflowChecks := !pl.overflowChecks);
    WrapAdd(pathLen + Len(node), 0);
    assert ParseNode(pl, node) == ParseNode(other, node);
  }

  /** What makes a node panic once the fold has reached it; `span` counts the levels from it to the leaf.
      A binary node reads key bit 251 - span, which has to exist. Overflow checks add sums that do not fit
      and an edge next to the leaf longer than the key. */
  predicate NodePanics(pl: Platform, node: Node<Felt>, last: bool, span: int) {
    if node.BinaryNode? then
      || (pl.overflowChecks && !InI64(span))
      || (ParseNode(pl, node).Some? && !(1 <= WrapI64(span) <= KEY_BITS))
    else
      pl.overflowChecks && ParseNode(pl, node).Some? && (if last then !(0 <= node.len <= KEY_BITS) else !InI64(span))
  }

  ghost predicate PanicsAt(pl: Platform, key: seq<bool>, value: Field, proof: seq<Node<Felt>>, i: nat)
    requires |key| == KEY_BITS && i < |proof|
  {
    Fold(pl, key, value, proof[i + 1..]).Going? && NodePanics(pl, proof[i], i == |proof| - 1, Span(proof[i..]))
  }

  /** Exactly when the fold panics, for all lengths and in both builds: at a node that panics, above nodes it
      gets through. */
  lemma {:induction false} PanicExact(pl: Platform, key: seq<bool>, value: Field, proof: seq<Node<Felt>>)
    requires |key| == KEY_BITS
    ensures Fold(pl, key, value, proof) == Stopped(Panic) <==>
      exists i :: 0 <= i < |proof| && PanicsAt(pl, key, value, proof, i)
  {
    if proof != [] {
      var below := Fold(pl, key, value, proof[1..]);
      PanicExact(pl, key, value, proof[1..]);
      PanicShift(pl, key, value, proof);
      if below.Going? {
        hide *;
        HeadPanics(pl, key, value, proof);
      } else {
        hide *;
        StoppedAbove(pl, key, value, proof);
      }
    }
  }

  lemma HeadPanics(pl: Platform, key: seq<bool>, value: Field, proof: seq<Node<Felt>>)
    requires |key| == KEY_BITS && proof != [] && Fold(pl, key, value, proof[1..]).Going?
    ensures Fold(pl, key, value, proof) == Stopped(Panic) <==> PanicsAt(pl, key, value, proof, 0)
  {
    var below := Fold(pl, key, value, proof[1..]);
    assert proof[0..] == proof;
    FoldHeight(pl, key, value, proof[1..]);
    StepPanics(pl, key, value, proof[0], |proof| == 1, below.hold, Span(proof[1..]));
    hide Step, NodePanics, WrapI64;
  }

  lemma StoppedAbove(pl: Platform, key: seq<bool>, value: Field, proof: seq<Node<Felt>>)
    requires |key| == KEY_BITS && proof != [] && Fold(pl, key, value, proof[1..]).Stopped?
    ensures Fold(pl, key, value, proof) == Fold(pl, key, value, proof[1..]) && !PanicsAt(pl, key, value, proof, 0)
  {
    hide Step;
  }

  /** `parse_proof` gets as far as the fold, and the fold panics. */
  ghost predicate ParsePanics(pl: Platform, keyText: string, valueText: Felt, proof: seq<Node<Felt>>) {
    var k, v := FromHex(pl, keyText), FromHex(pl, valueText);
    k.Some? && v.Some? && exists i :: 0 <= i < |proof| && PanicsAt(pl, KeyBits(k.value), v.value, proof, i)
  }

  lemma ParsePanicExact(pl: Platform, keyText: string, valueText: Felt, proof: seq<Node<Felt>>)
    ensures Parse(pl, keyText, valueText, proof) == Panic <==> ParsePanics(pl, keyText, valueText, proof)
  {
    var k, v := FromHex(pl, keyText), FromHex(pl, valueText);
    if k.Some? && v.Some? { PanicExact(pl, KeyBits(k.value), v.value, proof); }
  }

  /** A fold that stops has stopped at one of its nodes, above nodes it got through. */
  lemma {:induction false} StopsSomewhere(pl: Platform, key: seq<bool>, value: Field, proof: seq<Node<Felt>>)
    requires |key| == KEY_BITS && Fold(pl, key, value, proof).Stopped?
    ensures exists i: nat :: StopsAt(pl, key, value, proof, i)
  {
    hide Step;
    var tail := proof[1..];
    assert proof[0..] == proof;
    if Fold(pl, key, value, tail).Stopped? {
      StopsSomewhere(pl, key, value, tail);
      var i: nat :| StopsAt(pl, key, value, tail, i);
      assert tail[i + 1..] == proof[i + 2..] && tail[i..] == proof[i + 1..];
      assert StopsAt(pl, key, value, proof, i + 1);
    } else {
      assert StopsAt(pl, key, value, proof, 0);
    }
  }

  predicate StopsAt(pl: Platform, key: seq<bool>, value: Field, proof: seq<Node<Felt>>, i: nat)
    requires |key| == KEY_BITS
  {
    && i < |proof| && Fold(pl, key, value, proof[i + 1..]).Going?
    && Fold(pl, key, value, proof[i..]) == Fold(pl, key, value, proof) && Fold(pl, key, value, proof).Stopped?
  }

  /** The fold reaches a node that does not parse, and the node does not panic first. */
  predicate FailsAt(pl: Platform, key: seq<bool>, value: Field, proof: seq<Node<Felt>>, i: nat)
    requires |key| == KEY_BITS && i < |proof|
  {
    && Fold(pl, key, value, proof[i + 1..]).Going?
    && ParseNode(pl, proof[i]).None? && !NodePanics(pl, proof[i], i == |proof| - 1, Span(proof[i..]))
  }

  lemma StepFails(pl: Platform, key: seq<bool>, value: Field, node: Node<Felt>, last: bool, hold: Field, span: int)
    requires |key| == KEY_BITS && (pl.overflowChecks ==> InI64(span))
    ensures Step(pl, key, value, node, last, hold, WrapI64(span)) == Stopped(Err(-32701))
       <==> ParseNode(pl, node).None? && !NodePanics(pl, node, last, Len(node) + span)
  {
    hide FromHex, Masked, HashOf;
    WrapAdd(span, Len(node));
  }

  lemma HeadFails(pl: Platform, key: seq<bool>, value: Field, proof: seq<Node<Felt>>, i: nat)
    requires |key| == KEY_BITS && i < |proof| && Fold(pl, key, value, proof[i + 1..]).Going?
    ensures Fold(pl, key, value, proof[i..]) == Stopped(Err(-32701)) <==> FailsAt(pl, key, value, proof, i)
  {
    var suffix := proof[i..];
    var below := Fold(pl, key, value, suffix[1..]);
    assert suffix[1..] == proof[i + 1..];
    FoldHeight(pl, key, value, suffix[1..]);
    StepFails(pl, key, value, suffix[0], |suffix| == 1, below.hold, Span(suffix[1..]));
    hide Step, NodePanics, WrapI64, FromHex;
  }

  /** Exactly when `parse_proof` fails, for all inputs: the key or the value does not parse, or the fold reaches a
      node that does not parse and does not panic there first. What neither returns a hash, nor panics, nor fails
      is refused with `None`. */
  lemma ParseErrorExact(pl: Platform, keyText: string, valueText: Felt, proof: seq<Node<Felt>>)
    ensures Parse(pl, keyText, valueText, proof) == Err(-32701) <==> ParseFails(pl, keyText, valueText, proof)
    ensures
      var r := Parse(pl, keyText, valueText, proof);
      r.Ok? || r == Panic || r == Err(-32701)
  {
    var k, v := FromHex(pl, keyText), FromHex(pl, valueText);
    if k.Some? && v.Some? {
      FoldFailsExact(pl, KeyBits(k.value), v.value, proof);
      FoldStopsShort(pl, KeyBits(k.value), v.value, proof);
    }
  }

  ghost predicate ParseFails(pl: Platform, keyText: string, valueText: Felt, proof: seq<Node<Felt>>) {
    var k, v := FromHex(pl, keyText), FromHex(pl, valueText);
    k.None? || v.None? || exists i :: 0 <= i < |proof| && FailsAt(pl, KeyBits(k.value), v.value, proof, i)
  }

  lemma FoldFailsExact(pl: Platform, key: seq<bool>, value: Field, proof: seq<Node<Felt>>)
    requires |key| == KEY_BITS
    ensures Fold(pl, key, value, proof) == Stopped(Err(-32701)) <==>
      exists i :: 0 <= i < |proof| && FailsAt(pl, key, value, proof, i)
  {
    hide Fold, FailsAt;
    if Fold(pl, key, value, proof) == Stopped(Err(-32701)) {
      StopsSomewhere(pl, key, value, proof);
      var i: nat :| StopsAt(pl, key, value, proof, i);
      HeadFails(pl, key, value, proof, i);
    }
    if i :| 0 <= i < |proof| && FailsAt(pl, key, value, proof, i) {
      FailsFromBelow(pl, key, value, proof, i);
    }
  }

  lemma FailsFromBelow(pl: Platform, key: seq<bool>, value: Field, proof: seq<Node<Felt>>, i: nat)
    requires |key| == KEY_BITS && i < |proof| && FailsAt(pl, key, value, proof, i)
    ensures Fold(pl, key, value, proof) == Stopped(Err(-32701))
  {
    HeadFails(pl, key, value, proof, i);
    StoppedStays(pl, key, value, proof, i);
  }

  lemma PanicShift(pl: Platform, key: seq<bool>, value: Field, proof: seq<Node<Felt>>)
    requires |key| == KEY_BITS && proof != []
    ensures (exists i :: 0 <= i < |proof| && PanicsAt(pl, key, value, proof, i)) <==>
      || PanicsAt(pl, key, value, proof, 0)
      || exists i :: 0 <= i < |proof[1..]| && PanicsAt(pl, key, value, proof[1..], i)
  {
    var tail := proof[1..];
    forall i: nat | i < |tail| ensures PanicsAt(pl, key, value, tail, i) <==> PanicsAt(pl, key, value, proof, i + 1) {
      assert tail[i + 1..] == proof[i + 2..] && tail[i..] == proof[i + 1..];
    }
    if i :| 0 < i < |proof| && PanicsAt(pl, key, value, proof, i) {
      assert PanicsAt(pl, key, value, tail, i - 1);
    }
  }

  /** The running length is the sum of the lengths as a 64-bit integer, exactly so under overflow checks. */
  lemma {:induction false} FoldHeight(pl: Platform, key: seq<bool>, value: Field, proof: seq<Node<Felt>>)
    requires |key| == KEY_BITS && Fold(pl, key, value, proof).Going?
    ensures Fold(pl, key, value, proof).pathLen == WrapI64(Span(proof))
    ensures pl.overflowChecks ==> InI64(Span(proof))
  {
    if proof != [] {
      FoldHeight(pl, key, value, proof[1..]);
      var below := Fold(pl, key, value, proof[1..]);
      StepHeight(pl, key, value, proof[0], |proof| == 1, below.hold, Span(proof[1..]));
    }
  }

  lemma StepHeight(pl: Platform, key: seq<bool>, value: Field, node: Node<Felt>, last: bool, hold: Field, span: int)
    requires |key| == KEY_BITS && (pl.overflowChecks ==> InI64(span))
    ensures
      var step := Step(pl, key, value, node, last, hold, WrapI64(span));
      step.Going? ==>
        step.pathLen == WrapI64(Len(node) + span) && (pl.overflowChecks ==> InI64(Len(node) + span))
  {
    hide FromHex, Masked, HashOf;
    WrapAdd(span, Len(node));
  }

  lemma StepPanics(pl: Platform, key: seq<bool>, value: Field, node: Node<Felt>, last: bool, hold: Field, span: int)
    requires |key| == KEY_BITS && (pl.overflowChecks ==> InI64(span)) && (last ==> span == 0)
    ensures Step(pl, key, value, node, last, hold, WrapI64(span)) == Stopped(Panic)
       <==> NodePanics(pl, node, last, Len(node) + span)
  {
    hide FromHex, Masked, HashOf;
    WrapAdd(span, Len(node));
  }

  lemma SuffixFits<F>(nodes: seq<Node<F>>, i: nat)
    requires SpanFits(nodes) && i <= |nodes|
    ensures SpanFits(nodes[i..]) && 0 <= Span(nodes[i..])
  {
    SpanSplit(nodes, i);
    SpanNonnegative(nodes[..i]);
    SpanNonnegative(nodes[i..]);
  }

  /** When the lengths sum to 251, the bit read at a node is the key bit at its depth from the root. */
  lemma BitReadIsBitAtDepth<F>(key: seq<bool>, nodes: seq<Node<F>>, i: nat)
    requires |key| == KEY_BITS && LengthsAtLeast(nodes, 0) && Span(nodes) == KEY_BITS
    requires i < |nodes| && nodes[i].BinaryNode?
    ensures 0 <= Span(nodes[..i]) < KEY_BITS
    ensures BitAt(key, WrapI64(Span(nodes[i..]))) == key[Span(nodes[..i])]
  {
    SpanSplit(nodes, i);
    SpanNonnegative(nodes[..i]);
    SpanNonnegative(nodes[i..]);
    WrapAdd(Span(nodes[i..]), 0);
  }
}
