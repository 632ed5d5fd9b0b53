# Floneum graph-editor node: connection and type bookkeeping

Floneum lets a user wire plugins together in a graph editor. Each plugin
instance appears as a node. The node has an ordered list of input ports and a
list of output ports. Every port declares a value type. The type is either
`Single(t)`, one value of primitive type `t`, or `Many(t)`, a list of such
values.

This project models the bookkeeping that `impl Node` in `src/node.rs` does for
a node, as pure functions over immutable datatypes:

- which connection points the inputs offer (`input_connections`). A `Single`
  input has one knob. A `Many` input has one knob per element currently in its
  value.
- how many layout slots the inputs take (`input_count`).
- the partial type lookups `input_type`, `element_input_type` and
  `output_type`.
- the port colours. These fall back to `"black"` when a lookup fails.
- node equality, which compares graph ids only.
- the toggle of the focused node when the mouse is released over a node.

Modules:

- `Options` holds `Option`.
- `Values` holds `ValueType<P>`. The primitive type `P` is a parameter. It
  belongs to the plugin interface, which is not part of this model.
- `Edge` holds `Connection`, `ConnectionType` and the order in which
  connections are enumerated.
- `GraphNode` holds the node and its operations.
- `Focus` holds the focus rule.

A port's colour comes from a colouring of value types that is defined outside
the file. It is passed in as a function parameter `color`. An input's value is
represented only by its length (`valueLen`), because that is all the modelled
code reads of it. `usize` is modelled as `nat`.

## Model

| member | source | states |
|---|---|---|
| GraphNode.SingleConnections | src/node.rs:52-63 | The `Single` connections of inputs `0..n`. Their number equals the count of inputs declared `Single`. Each is tagged `Single` and has an index below `n` whose input is declared `Single`. That there is exactly one per such input follows from `SingleConnectionsMembers` and `SingleConnectionsOrdered`. |
| GraphNode.SingleConnectionsMembers | src/node.rs:52-63 | A connection is in the `Single` part exactly when it is tagged `Single`, its index is below `n`, and that input is declared `Single`. `Many` inputs contribute none. |
| GraphNode.SingleConnectionsOrdered | src/node.rs:52-63 | The `Single` connections come in strictly increasing input index. |
| GraphNode.ElementsOf | src/node.rs:66-74 | The range `0..len` mapped to connections. It yields exactly `len` connections, and the k-th is `Element(k)` tagged with the input's index. |
| GraphNode.ElementsOfMembers | src/node.rs:66-74 | A connection belongs to `ElementsOf(index, len)` exactly when it is `Element(inner)` on `index` with `inner < len`. |
| GraphNode.ElementConnections | src/node.rs:64-75 | The element part of inputs `0..n`. Its length is the sum of value lengths of the `Many` inputs. Each entry is `Element(inner)` on a `Many` input below `n`, with `inner` below that input's value length. |
| GraphNode.ElementConnectionsMembers | src/node.rs:64-75 | A connection is in the element part exactly when it is `Element(inner)` on a `Many` input below `n` with `inner` below its value length. `Single` inputs contribute no `Element` connections. |
| GraphNode.ElementConnectionsOrdered | src/node.rs:64-75 | Element connections come by increasing input index, then by increasing element position. |
| GraphNode.InputConnections | src/node.rs:51-76 | The number of connections is the count of `Single` inputs plus the sum of value lengths of `Many` inputs. Every yielded index is below the number of inputs. |
| GraphNode.InputConnectionsSpec | src/node.rs:51-76 | The connections are exactly the node's connection points. They are strictly ordered: all `Single` connections first, by index, then all element connections, by index and position. So no connection is yielded twice. |
| GraphNode.InputConnectionsIsTheOrderedEnumeration | src/node.rs:51-76 | Any strictly ordered list that holds exactly the connection points equals `InputConnections`. The enumeration is therefore fully determined by the two properties above. |
| GraphNode.InputCount | src/node.rs:123-134 | The slot count is the number of inputs plus the sum of value lengths of `Many` inputs. It also equals the number of connections plus the number of `Many` inputs. It is at least the number of inputs. It equals the number of inputs exactly when no `Many` input has elements, and in particular when no input is `Many`. |
| GraphNode.NoManyMeansNoElementSlots | src/node.rs:123-134 | When every input is declared `Single`, no input adds element slots to the count. |
| GraphNode.ElementInputType | src/node.rs:146-153 | The lookup is defined exactly when the index is in range and the input is declared `Many`. It then yields `Single` of that input's primitive type. |
| GraphNode.ElementInputTypeIff | src/node.rs:146-153 | `element_input_type(i)` is `Some(Single(t))` exactly when `i` is in range and input `i` is declared `Many(t)`. |
| GraphNode.InputType | src/node.rs:136-144 | On a `Single` connection: defined exactly when the index is in range, and then it is the input's declared type. On an `Element` connection: defined exactly when the input is in range and declared `Many`, and then it is `Single` of its primitive type. |
| GraphNode.ElementTypeIgnoresPosition | src/node.rs:136-144 | On `Element(inner)`, `input_type` ignores `inner` and equals `element_input_type(index)`. |
| GraphNode.ConnectionPointsAcceptSingleValues | src/node.rs:136-153 | Every connection that `input_connections` yields has a type. That type is `Single` of its input's primitive type. |
| GraphNode.OutputType | src/node.rs:162-166 | Defined exactly when the index is in range, and then it is the output's declared type. |
| GraphNode.InputColor | src/node.rs:155-160 | `"black"` when the input type lookup fails; otherwise the colour of the looked-up type. |
| GraphNode.OutputColor | src/node.rs:168-173 | `"black"` for an out-of-range output; otherwise the colour of the output's declared type. |
| GraphNode.ConnectionColorsComeFromTypes | src/node.rs:155-160 | No knob that `input_connections` yields falls back to `"black"` for lack of a type. Each has the colour of its input's element type. |
| GraphNode.SameNode | src/node.rs:38-42 | Two nodes are equal exactly when their ids are equal. Identical nodes are always equal. |
| GraphNode.SameNodeIsIdEquivalence | src/node.rs:38-42 | Node equality is reflexive, symmetric and transitive. It is unaffected by the nodes' ports. |
| GraphNode.SameNodeIsCoarserThanStructuralEquality | src/node.rs:38-42 | Two nodes that differ in a field other than the id still compare equal. |
| Focus.ToggleFocus | src/node.rs:371-379 | The result is no focus exactly when this node was the focused one. Otherwise the result is this node. |
| Focus.ToggleFlipsFocus | src/node.rs:371-379 | A toggle flips whether this node is focused, and leaves no other node focused. |
| Focus.ToggleTwice | src/node.rs:371-379 | Two toggles restore this node's own focus state and unfocus any other node. From no focus, two toggles return to no focus. |

## Left out

- Pixel layout (`center`, `output_pos`, `input_pos`, `single_input_pos`, `element_input_pos`, `input_array_add_element_pos`, `input_array_remove_element_pos`): `f32` arithmetic.
- Nearest-knob selection and snapping in the mouse-down and mouse-up handlers: they compare float distances against `SNAP_DISTANCE`.
- Starting a drag, connecting an edge and clearing the drag state: these calls go into graph code that is not part of this model.
- The Dioxus components `Node` and `CenterNodeUI`, apart from the focus rule: UI rendering.
- Running the plugin from the Run button: an asynchronous call into a plugin instance, together with the `running`, `queued` and `error` updates it makes.
- `help_text`: it reads plugin metadata, which is not part of this model.
- `push_default_value` and `pop_value` on an input: `NodeInput` is not part of this model.
- The Serde derives: serialisation only.
- The colouring of value types (`color()`): its definition is not part of this model, so it is a parameter.
- `input_count` overflow: `usize` is modelled as unbounded `nat`. A sum of value lengths beyond `usize::MAX` cannot occur for values held in memory.
- The focus comparison at src/node.rs:373 compares node handles, not nodes, and handles are not part of this model. So `Focus` is generic in the handle type and its equality.
- language-model/src/remote/open_ai.rs: a network client for a remote API, made of foreign calls and async I/O.
- floneumin/examples/fs_context.rs: a terminal read–query loop. The document database, chunking strategy, embedder and fuzzy index it drives are defined in library code that is not part of this model.
