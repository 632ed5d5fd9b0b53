/** The bookkeeping of a plugin node in the graph editor: which connection
    points its inputs offer, how many layout slots they take, and what type and
    colour each input and output port has.

    A node's inputs are kept in order. Each input has a declared type and a
    current value; only the number of elements in that value matters here.
 */
module GraphNode {
  import opened Options
  import opened Values
  import opened Edge

  /** One input port: its declared type and the length of its current value. */
  datatype NodeInput<P> = NodeInput(ty: ValueType<P>, valueLen: nat)

  /** One output port: its declared type. */
  datatype NodeOutput<P> = NodeOutput(ty: ValueType<P>)

  /** A node of the graph. The plugin instance, position and size are not
      modelled; the remaining plain-data fields are kept so that node equality
      can be seen to ignore them. */
  datatype Node<P> = Node(
    id: nat,
    running: bool,
    queued: bool,
    error: Option<string>,
    inputs: seq<NodeInput<P>>,
    outputs: seq<NodeOutput<P>>)

  // ---------------------------------------------------------------------------
  // Reference counts over a list of inputs
  // ---------------------------------------------------------------------------

  /** Number of inputs declared `Single`. */
  function CountSingle<P>(inputs: seq<NodeInput<P>>): nat
  {
    if |inputs| == 0 then 0
    else CountSingle(inputs[..|inputs| - 1]) + (if inputs[|inputs| - 1].ty.Single? then 1 else 0)
  }

  /** Number of inputs declared `Many`. */
  function CountMany<P>(inputs: seq<NodeInput<P>>): nat
  {
    if |inputs| == 0 then 0
    else CountMany(inputs[..|inputs| - 1]) + (if inputs[|inputs| - 1].ty.Many? then 1 else 0)
  }

  /** The number of elements an input contributes as element slots: the length
      of its value when it is declared `Many`, nothing otherwise. */
  function ElementSlots<P>(input: NodeInput<P>): nat
  {
    if input.ty.Many? then input.valueLen else 0
  }

  /** Sum of the value lengths of the inputs declared `Many`. */
  function ManyTotal<P>(inputs: seq<NodeInput<P>>): nat
  {
    if |inputs| == 0 then 0
    else ManyTotal(inputs[..|inputs| - 1]) + ElementSlots(inputs[|inputs| - 1])
  }

  lemma {:induction false} SingleAndManyPartitionInputs<P>(inputs: seq<NodeInput<P>>)
    ensures CountSingle(inputs) + CountMany(inputs) == |inputs|
    decreases |inputs|
  {
    if |inputs| > 0 {
      SingleAndManyPartitionInputs(inputs[..|inputs| - 1]);
    }
  }

  lemma {:induction false} ManyTotalZeroIff<P>(inputs: seq<NodeInput<P>>)
    ensures ManyTotal(inputs) == 0 <==> forall i :: 0 <= i < |inputs| ==> ElementSlots(inputs[i]) == 0
    decreases |inputs|
  {
    if |inputs| > 0 {
      var front := inputs[..|inputs| - 1];
      ManyTotalZeroIff(front);
      assert forall i :: 0 <= i < |front| ==> front[i] == inputs[i];
    }
  }

  /** When no input is declared `Many`, no input contributes element slots. */
  lemma {:induction false} NoManyMeansNoElementSlots<P>(inputs: seq<NodeInput<P>>)
    requires forall i :: 0 <= i < |inputs| ==> inputs[i].ty.Single?
    ensures ManyTotal(inputs) == 0
  {
    ManyTotalZeroIff(inputs);
  }

  // ---------------------------------------------------------------------------
  // Connection points
  // ---------------------------------------------------------------------------

  /** `c` names a connection point of `inputs`: the single knob of an input
      declared `Single`, or the knob of an existing element of an input
      declared `Many`. */
  predicate IsConnectionPoint<P>(inputs: seq<NodeInput<P>>, c: Connection)
  {
    && c.index < |inputs|
    && match c.ty
       case Single => inputs[c.index].ty.Single?
       case Element(inner) => inputs[c.index].ty.Many? && inner < inputs[c.index].valueLen
  }

  /** The `Single` connections of inputs `0..n`, one for every input declared
      `Single`, in increasing input index. */
  function SingleConnections<P>(inputs: seq<NodeInput<P>>, n: nat): (r: seq<Connection>)
    requires n <= |inputs|
    ensures |r| == CountSingle(inputs[..n])
    ensures forall k :: 0 <= k < |r| ==>
              && r[k].ty == ConnectionType.Single
              && r[k].index < n
              && inputs[r[k].index].ty.Single?
  {
    if n == 0 then []
    else
      assert inputs[..n][..n - 1] == inputs[..n - 1];
      SingleConnections(inputs, n - 1)
      + (if inputs[n - 1].ty.Single? then [Connection(n - 1, ConnectionType.Single)] else [])
  }

  /** The element connections `Element(0) .. Element(len - 1)` of input `index`. */
  function ElementsOf(index: nat, len: nat): (r: seq<Connection>)
    ensures |r| == len
    ensures forall k :: 0 <= k < |r| ==> r[k] == Connection(index, Element(k))
  {
    if len == 0 then []
    else ElementsOf(index, len - 1) + [Connection(index, Element(len - 1))]
  }

  /** The element connections of inputs `0..n`: for every input declared
      `Many`, one per element of its value, by input index and then element
      position; inputs declared `Single` contribute none. */
  function ElementConnections<P>(inputs: seq<NodeInput<P>>, n: nat): (r: seq<Connection>)
    requires n <= |inputs|
    ensures |r| == ManyTotal(inputs[..n])
    ensures forall k :: 0 <= k < |r| ==>
              && r[k].ty.Element?
              && r[k].index < n
              && inputs[r[k].index].ty.Many?
              && r[k].ty.inner < inputs[r[k].index].valueLen
  {
    if n == 0 then []
    else
      assert inputs[..n][..n - 1] == inputs[..n - 1];
      var len := if inputs[n - 1].ty.Many? then inputs[n - 1].valueLen else 0;
      ElementConnections(inputs, n - 1) + ElementsOf(n - 1, len)
  }

  /** Every connection point of the node's inputs: the `Single` connections
      first, then the element connections. */
  function InputConnections<P>(node: Node<P>): (r: seq<Connection>)
    ensures |r| == CountSingle(node.inputs) + ManyTotal(node.inputs)
    ensures forall k :: 0 <= k < |r| ==> r[k].index < |node.inputs|
  {
    var n := |node.inputs|;
    assert node.inputs[..n] == node.inputs;
    SingleConnections(node.inputs, n) + ElementConnections(node.inputs, n)
  }

  lemma {:induction false} SingleConnectionsMembers<P>(inputs: seq<NodeInput<P>>, n: nat, c: Connection)
    requires n <= |inputs|
    ensures c in SingleConnections(inputs, n) <==>
              c.ty == ConnectionType.Single && c.index < n && inputs[c.index].ty.Single?
    decreases n
  {
    if n > 0 {
      SingleConnectionsMembers(inputs, n - 1, c);
    }
  }

  lemma {:induction false} SingleConnectionsOrdered<P>(inputs: seq<NodeInput<P>>, n: nat)
    requires n <= |inputs|
    ensures StrictlyOrdered(SingleConnections(inputs, n))
    decreases n
  {
    if n > 0 {
      SingleConnectionsOrdered(inputs, n - 1);
    }
  }

  lemma ElementsOfMembers(index: nat, len: nat, c: Connection)
    ensures c in ElementsOf(index, len) <==> c.index == index && c.ty.Element? && c.ty.inner < len
  {
    if c.index == index && c.ty.Element? && c.ty.inner < len {
      assert ElementsOf(index, len)[c.ty.inner] == c;
    }
  }

  lemma {:induction false} ElementConnectionsMembers<P>(inputs: seq<NodeInput<P>>, n: nat, c: Connection)
    requires n <= |inputs|
    ensures c in ElementConnections(inputs, n) <==>
              && c.ty.Element?
              && c.index < n
              && inputs[c.index].ty.Many?
              && c.ty.inner < inputs[c.index].valueLen
    decreases n
  {
    if n > 0 {
      ElementConnectionsMembers(inputs, n - 1, c);
      var len := if inputs[n - 1].ty.Many? then inputs[n - 1].valueLen else 0;
      ElementsOfMembers(n - 1, len, c);
    }
  }

  lemma {:induction false} ElementConnectionsOrdered<P>(inputs: seq<NodeInput<P>>, n: nat)
    requires n <= |inputs|
    ensures StrictlyOrdered(ElementConnections(inputs, n))
    decreases n
  {
    if n > 0 {
      ElementConnectionsOrdered(inputs, n - 1);
      var len := if inputs[n - 1].ty.Many? then inputs[n - 1].valueLen else 0;
      var front := ElementConnections(inputs, n - 1);
      var back := ElementsOf(n - 1, len);
      assert ElementConnections(inputs, n) == front + back;
      forall j, k | 0 <= j < k < |front + back|
        ensures Precedes((front + back)[j], (front + back)[k])
      {
        if k < |front| {
          assert Precedes(front[j], front[k]);
        } else if j >= |front| {
          assert back[j - |front|] == Connection(n - 1, Element(j - |front|));
        }
      }
    }
  }

  /** The connections a node offers are exactly its connection points, each
      listed once: `Single` connections in increasing input index, then element
      connections by input index and element position. */
  lemma InputConnectionsSpec<P>(node: Node<P>)
    ensures forall c :: c in InputConnections(node) <==> IsConnectionPoint(node.inputs, c)
    ensures StrictlyOrdered(InputConnections(node))
  {
    var n := |node.inputs|;
    var singles := SingleConnections(node.inputs, n);
    var elements := ElementConnections(node.inputs, n);
    assert InputConnections(node) == singles + elements;
    forall c
      ensures c in singles + elements <==> IsConnectionPoint(node.inputs, c)
    {
      SingleConnectionsMembers(node.inputs, n, c);
      ElementConnectionsMembers(node.inputs, n, c);
    }
    SingleConnectionsOrdered(node.inputs, n);
    ElementConnectionsOrdered(node.inputs, n);
    forall j, k | 0 <= j < k < |singles + elements|
      ensures Precedes((singles + elements)[j], (singles + elements)[k])
    {
      if k < |singles| {
        assert Precedes(singles[j], singles[k]);
      } else if j >= |singles| {
        assert Precedes(elements[j - |singles|], elements[k - |singles|]);
      }
    }
  }

  /** `InputConnections` is the one ordered enumeration of the connection
      points: any strictly ordered list holding exactly the connection points
      is equal to it. */
  lemma InputConnectionsIsTheOrderedEnumeration<P>(node: Node<P>, s: seq<Connection>)
    requires StrictlyOrdered(s)
    requires forall c :: c in s <==> IsConnectionPoint(node.inputs, c)
    ensures s == InputConnections(node)
  {
    InputConnectionsSpec(node);
    OrderedListIsDeterminedByMembers(s, InputConnections(node));
  }

  // ---------------------------------------------------------------------------
  // Layout slot count
  // ---------------------------------------------------------------------------

  /** The number of vertical slots the node's inputs take: one per input, plus
      one per element of every input declared `Many`. */
  method InputCount<P>(node: Node<P>) returns (count: nat)
    ensures count == |node.inputs| + ManyTotal(node.inputs)
    ensures count == |InputConnections(node)| + CountMany(node.inputs)
    ensures count >= |node.inputs|
    ensures count == |node.inputs| <==> forall i :: 0 <= i < |node.inputs| ==> ElementSlots(node.inputs[i]) == 0
    ensures (forall i :: 0 <= i < |node.inputs| ==> node.inputs[i].ty.Single?) ==> count == |node.inputs|
  {
    count := |node.inputs|;
    for idx := 0 to |node.inputs|
      invariant count == |node.inputs| + ManyTotal(node.inputs[..idx])
    {
      assert node.inputs[..idx + 1][..idx] == node.inputs[..idx];
      match InputType(node, Connection(idx, ConnectionType.Single)) {
        case Some(Many(_)) =>
          count := count + node.inputs[idx].valueLen;
        case _ =>
      }
    }
    assert node.inputs[..|node.inputs|] == node.inputs;
    SingleAndManyPartitionInputs(node.inputs);
    ManyTotalZeroIff(node.inputs);
  }

  // ---------------------------------------------------------------------------
  // Type lookups
  // ---------------------------------------------------------------------------

  /** The element type of input `index`: `Single(t)` for an input declared
      `Many(t)`, nothing for an input declared `Single` or an index out of
      range. */
  function ElementInputType<P>(node: Node<P>, index: nat): (r: Option<ValueType<P>>)
    ensures r.Some? <==> index < |node.inputs| && node.inputs[index].ty.Many?
    ensures r.Some? ==> r.value == ValueType.Single(node.inputs[index].ty.primitive)
  {
    if index < |node.inputs| then
      match node.inputs[index].ty
      case Many(t) => Some(ValueType.Single(t))
      case Single(_) => None
    else None
  }

  /** The type a connection point accepts: the declared type of the input for a
      `Single` connection, the element type of the input for an `Element`
      connection (whatever its position). */
  function InputType<P>(node: Node<P>, c: Connection): (r: Option<ValueType<P>>)
    ensures c.ty.Single? ==> (r.Some? <==> c.index < |node.inputs|)
    ensures c.ty.Single? && r.Some? ==> r.value == node.inputs[c.index].ty
    ensures c.ty.Element? ==> (r.Some? <==> c.index < |node.inputs| && node.inputs[c.index].ty.Many?)
    ensures c.ty.Element? && r.Some? ==> r.value == ValueType.Single(node.inputs[c.index].ty.primitive)
  {
    match c.ty
    case Single => if c.index < |node.inputs| then Some(node.inputs[c.index].ty) else None
    case Element(_) => ElementInputType(node, c.index)
  }

  /** The declared type of output `index`, nothing when out of range. */
  function OutputType<P>(node: Node<P>, index: nat): (r: Option<ValueType<P>>)
    ensures r.Some? <==> index < |node.outputs|
    ensures r.Some? ==> r.value == node.outputs[index].ty
  {
    if index < |node.outputs| then Some(node.outputs[index].ty) else None
  }

  /** `ElementInputType` yields `Single(t)` exactly for an input declared
      `Many(t)`. */
  lemma ElementInputTypeIff<P>(node: Node<P>, index: nat, t: P)
    ensures ElementInputType(node, index) == Some(ValueType.Single(t)) <==>
              index < |node.inputs| && node.inputs[index].ty == Many(t)
  {
  }

  /** An element connection's type does not depend on the element position. */
  lemma ElementTypeIgnoresPosition<P>(node: Node<P>, index: nat, a: nat, b: nat)
    ensures InputType(node, Connection(index, Element(a))) == InputType(node, Connection(index, Element(b)))
    ensures InputType(node, Connection(index, Element(a))) == ElementInputType(node, index)
  {
  }

  /** Every connection point the node offers accepts a single value of its
      input's primitive type. */
  lemma ConnectionPointsAcceptSingleValues<P>(node: Node<P>)
    ensures forall c :: c in InputConnections(node) ==>
              InputType(node, c) == Some(ValueType.Single(node.inputs[c.index].ty.primitive))
  {
  }

  // ---------------------------------------------------------------------------
  // Colours
  // ---------------------------------------------------------------------------

  /** The colour a port is drawn in when its type cannot be looked up. */
  const FallbackColor: string := "black"

  /** The colour of an input connection: the colour of its type, or the
      fallback colour when the type lookup fails. `color` stands for the
      colouring of value types, which is defined outside this model. */
  function InputColor<P>(node: Node<P>, c: Connection, color: ValueType<P> -> string): (r: string)
    ensures InputType(node, c).None? ==> r == FallbackColor
    ensures InputType(node, c).Some? ==> r == color(InputType(node, c).value)
  {
    match InputType(node, c)
    case Some(ty) => color(ty)
    case None => FallbackColor
  }

  /** The colour of output `index`: the colour of its type, or the fallback
      colour when `index` is out of range. */
  function OutputColor<P>(node: Node<P>, index: nat, color: ValueType<P> -> string): (r: string)
    ensures index >= |node.outputs| ==> r == FallbackColor
    ensures index < |node.outputs| ==> r == color(node.outputs[index].ty)
  {
    match OutputType(node, index)
    case Some(ty) => color(ty)
    case None => FallbackColor
  }

  /** The knobs of the node's connection points are never drawn in the
      fallback colour for want of a type: each takes the colour of its
      input's element type. */
  lemma ConnectionColorsComeFromTypes<P>(node: Node<P>, color: ValueType<P> -> string)
    ensures forall c :: c in InputConnections(node) ==>
              InputColor(node, c, color) == color(ValueType.Single(node.inputs[c.index].ty.primitive))
  {
  }

  // ---------------------------------------------------------------------------
  // Node equality
  // ---------------------------------------------------------------------------

  /** Two nodes are equal when their graph ids are equal. */
  function SameNode<P>(a: Node<P>, b: Node<P>): (r: bool)
    ensures r <==> a.id == b.id
    ensures a == b ==> r
  {
    a.id == b.id
  }

  /** Node equality is an equivalence relation that looks at nothing but the
      id: nodes that differ in their ports or flags are still equal when their
      ids agree, and identical nodes are always equal. */
  lemma SameNodeIsIdEquivalence<P>(a: Node<P>, b: Node<P>, c: Node<P>)
    ensures SameNode(a, a)
    ensures SameNode(a, b) ==> SameNode(b, a)
    ensures SameNode(a, b) && SameNode(b, c) ==> SameNode(a, c)
    ensures SameNode(a, b) <==> SameNode(a.(inputs := b.inputs, outputs := b.outputs), b)
  {
  }

  /** Node equality is strictly coarser than structural equality. */
  lemma SameNodeIsCoarserThanStructuralEquality<P>(a: Node<P>)
    ensures SameNode(a, a.(running := !a.running)) && a != a.(running := !a.running)
  {
  }
}
