/** ConvertToNodeIdTag of pkg/plan/suite/step_builder.go: the pod id of a node's client. */
module NodeIds {
  import opened Common
  import opened Strings
  import opened NetworkBuilder

  datatype ClientKind = Execution | Consensus | Validator

  /** How many digits the node number is padded to. */
  function TagWidth(networkNodeCount: nat): nat {
    if networkNodeCount < 10 then 1 else if networkNodeCount < 100 then 2 else 3
  }

  function NodeNumber(networkNodeCount: nat, index: nat): string {
    ZeroPad(Decimal(index), TagWidth(networkNodeCount))
  }

  function NodeIdTag(networkNodeCount: nat, node: Node, client: ClientKind): string {
    Prefix(client) + (NodeNumber(networkNodeCount, node.index) + "-" + Names(client, node))
  }

  function Prefix(client: ClientKind): string {
    match client
    case Execution => "el-"
    case Consensus => "cl-"
    case Validator => "val-"
  }

  /** The client under the tag's kind first, its partner second. */
  function Names(client: ClientKind, node: Node): string {
    if client.Execution? then node.execution.kind + "-" + node.consensus.kind
    else node.consensus.kind + "-" + node.execution.kind
  }

  /** An id in the committed plans, in a network of 12 nodes. */
  lemma CommittedId(reth: Node)
    requires reth.index == 4 && reth.execution.kind == "reth" && reth.consensus.kind == "teku"
    ensures NodeIdTag(12, reth, Execution) == "el-04-reth-teku"
  {
    PaddedFour();
    assert Names(Execution, reth) == "reth-teku";
    assert "04" + "-" + "reth-teku" == "04-reth-teku";
    assert "el-" + "04-reth-teku" == "el-04-reth-teku";
  }

  lemma PaddedFour()
    ensures NodeNumber(12, 4) == "04"
  {
    assert Decimal(4) == "4";
    assert "0" + "4" == "04";
  }

  // ---------------------------------------------------------------- injectivity

  lemma NumberValue(count: nat, index: nat)
    ensures IsNumeral(NodeNumber(count, index)) && Value(NodeNumber(count, index)) == index
    ensures '-' !in NodeNumber(count, index)
  {
    ValueOfDecimal(index);
    ValueOfPadded(Decimal(index), TagWidth(count));
  }

  lemma LongerHeadHasHyphen(a: string, b: string, x: string, y: string)
    requires a + "-" + x == b + "-" + y
    ensures |a| < |b| ==> '-' in b
    ensures |a| == |b| ==> a == b
  {
    var s := a + "-" + x;
    assert s[|a|] == '-' && s[..|a|] == a;
    assert s == b + "-" + y && s[..|b|] == b;
  }

  /** Whatever the client names, hyphens included, a tag determines the node number and the kind of client. */
  lemma TagIsInjective(count: nat, n1: Node, k1: ClientKind, n2: Node, k2: ClientKind)
    requires NodeIdTag(count, n1, k1) == NodeIdTag(count, n2, k2)
    ensures k1 == k2 && n1.index == n2.index
  {
    var tag := NodeIdTag(count, n1, k1);
    assert k1 == k2 by {
      assert tag[0] == Prefix(k1)[0] == Prefix(k2)[0];
    }
    var a, b := NodeNumber(count, n1.index), NodeNumber(count, n2.index);
    assert tag[|Prefix(k1)|..] == a + "-" + Names(k1, n1);
    assert tag[|Prefix(k1)|..] == b + "-" + Names(k2, n2);
    NumberValue(count, n1.index);
    NumberValue(count, n2.index);
    LongerHeadHasHyphen(a, b, Names(k1, n1), Names(k2, n2));
    LongerHeadHasHyphen(b, a, Names(k2, n2), Names(k1, n1));
  }

  /** The kind of client shows in the first letters of its id, so the validator ids of the committed suites, which
      begin with "cl-", are none that the code writes. */
  lemma PrefixTellsKind(count: nat, node: Node, kind: ClientKind)
    ensures Prefix(kind) <= NodeIdTag(count, node, kind)
    ensures "cl-" <= NodeIdTag(count, node, kind) <==> kind == Consensus
    ensures NodeIdTag(count, node, Validator) != "cl-2-lighthouse-nethermind-validator"
  {
    var tag, validator := NodeIdTag(count, node, kind), NodeIdTag(count, node, Validator);
    assert tag[..|Prefix(kind)|] == Prefix(kind);
    assert tag[0] == Prefix(kind)[0];
    assert validator[0] == Prefix(Validator)[0] == 'v';
  }

  /** An id spelled out: the kind of client, the node number, the client's own type and that of its partner. The
      number has as many digits as the number of nodes, up to three, or more if it needs them. */
  lemma TagReads(count: nat, node: Node, kind: ClientKind) returns (number: string)
    ensures IsNumeral(number) && Value(number) == node.index
    ensures |number| == Max(|Decimal(node.index)|, if count < 1000 then |Decimal(count)| else 3)
    ensures NodeIdTag(count, node, kind) ==
      match kind
      case Execution => "el-" + (number + "-" + (node.execution.kind + "-" + node.consensus.kind))
      case Consensus => "cl-" + (number + "-" + (node.consensus.kind + "-" + node.execution.kind))
      case Validator => "val-" + (number + "-" + (node.consensus.kind + "-" + node.execution.kind))
  {
    number := NodeNumber(count, node.index);
    NumberValue(count, node.index);
    ValueOfDecimal(node.index);
    ValueOfPadded(Decimal(node.index), TagWidth(count));
    WidthIs(count);
  }

  lemma WidthIs(count: nat)
    ensures TagWidth(count) == if count < 1000 then |Decimal(count)| else 3
  {
    ValueOfDecimal(count);
    DecimalLength(count, 1);
    DecimalLength(count, 2);
    DecimalLength(count, 3);
    assert Pow10(1) == 10 && Pow10(2) == 100 && Pow10(3) == 1000;
  }

  // ---------------------------------------------------------------- numeric order

  /** The numbers of two nodes of the network are ordered as strings the way they are ordered as numbers. */
  ghost predicate KeepsOrder(count: nat, i: nat, j: nat) {
    LexLess(NodeNumber(count, i), NodeNumber(count, j)) <==> i < j
  }

  lemma NumberWidth(count: nat, index: nat)
    requires 1 <= index <= count < 1000
    ensures |NodeNumber(count, index)| == TagWidth(count)
  {
    NumberValue(count, index);
    ValueOfDecimal(index);
    ValueOfPadded(Decimal(index), TagWidth(count));
    DecimalLength(index, TagWidth(count));
    assert Pow10(1) == 10 && Pow10(2) == 100 && Pow10(3) == 1000;
  }

  /** Padding keeps string order numeric across the whole network exactly when it has fewer than 1000 nodes. */
  lemma OrderKeptIffSmall(count: nat)
    ensures (forall i: nat, j: nat :: 1 <= i <= count && 1 <= j <= count ==> KeepsOrder(count, i, j)) <==> count < 1000
  {
    if count < 1000 {
      forall i: nat, j: nat | 1 <= i <= count && 1 <= j <= count
        ensures KeepsOrder(count, i, j)
      {
        NumberWidth(count, i);
        NumberWidth(count, j);
        NumberValue(count, i);
        NumberValue(count, j);
        NumeralOrder(NodeNumber(count, i), NodeNumber(count, j));
      }
    } else {
      assert Decimal(100) == "100";
      assert Decimal(1000) == "1000";
      assert Decimal(99) == "99";
      assert Decimal(999) == "999";
      assert LexLess("1000", "999");
      assert !KeepsOrder(count, 1000, 999);
    }
  }
}
