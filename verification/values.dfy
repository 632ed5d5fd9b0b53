/** The optional result of the node's partial lookups (Rust's `Option`). */
module Options {

  datatype Option<+T> = None | Some(value: T)
}

/** Port types of a plugin node.

    A port is declared either to carry one value of a primitive type or a list
    of values of that type. The primitive types themselves belong to the plugin
    interface and are kept abstract here as the type parameter `P`.
 */
module Values {

  datatype ValueType<P> = Single(primitive: P) | Many(primitive: P)
}

/** Connection points of a node's inputs (the `Connection` and `ConnectionType`
    values of the graph's edge code).

    An input declared `Single` has one connection point; an input declared
    `Many` has one connection point per element currently in its value.
 */
module Edge {

  datatype ConnectionType = Single | Element(inner: nat)

  datatype Connection = Connection(index: nat, ty: ConnectionType)

  /** The order in which a node enumerates its input connections: every
      `Single` connection before every `Element` connection, `Single`
      connections by input index, `Element` connections by input index and
      then by element position. */
  predicate Precedes(a: Connection, b: Connection)
  {
    match (a.ty, b.ty)
    case (Single, Single) => a.index < b.index
    case (Single, Element(_)) => true
    case (Element(_), Single) => false
    case (Element(i), Element(j)) => a.index < b.index || (a.index == b.index && i < j)
  }

  /** `s` lists its connections in strictly increasing `Precedes` order. */
  predicate StrictlyOrdered(s: seq<Connection>)
  {
    forall j, k :: 0 <= j < k < |s| ==> Precedes(s[j], s[k])
  }

  lemma PrecedesIsStrictOrder(a: Connection, b: Connection, c: Connection)
    ensures !Precedes(a, a)
    ensures Precedes(a, b) ==> !Precedes(b, a)
    ensures Precedes(a, b) && Precedes(b, c) ==> Precedes(a, c)
  {
  }

  lemma HasNoMembersOnlyIfEmpty(t: seq<Connection>)
    ensures (forall c :: c !in t) ==> t == []
  {
    if |t| > 0 {
      assert t[0] in t;
    }
  }

  /** A strictly ordered list of connections is determined by the set of
      connections it holds: two such lists with the same members are equal. */
  lemma {:induction false} OrderedListIsDeterminedByMembers(s: seq<Connection>, t: seq<Connection>)
    requires StrictlyOrdered(s) && StrictlyOrdered(t)
    requires forall c :: c in s <==> c in t
    ensures s == t
    decreases |s|
  {
    if |s| > 0 {
      assert s[0] in t;
      assert t[0] in s;
      PrecedesIsStrictOrder(s[0], t[0], s[0]);
      assert s[0] == t[0];
      forall c
        ensures c in s[1..] <==> c in t[1..]
      {
        if c in s[1..] {
          var j :| 1 <= j < |s| && s[j] == c;
          assert Precedes(s[0], c);
          PrecedesIsStrictOrder(s[0], c, c);
          assert c in t;
          assert c != t[0];
        }
        if c in t[1..] {
          var i :| 1 <= i < |t| && t[i] == c;
          assert Precedes(t[0], c);
          PrecedesIsStrictOrder(t[0], c, c);
          assert c in s;
          assert c != s[0];
        }
      }
      OrderedListIsDeterminedByMembers(s[1..], t[1..]);
      assert s == [s[0]] + s[1..];
      assert t == [t[0]] + t[1..];
    } else {
      HasNoMembersOnlyIfEmpty(t);
    }
  }
}
