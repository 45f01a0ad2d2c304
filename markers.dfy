/**
 * The mesh's two string <-> int marker tables (`Mesh::MarkersConversion`,
 * hermes2d/src/mesh/mesh.cpp:1895-1991): user markers are strings, the mesh
 * stores ints.  New strings get consecutive ints starting at 1; the
 * discontinuous-Galerkin inner-edge marker is a fixed sentinel that both
 * lookups map to itself without consulting the tables.
 */
module Markers {

  /** `H2D_DG_INNER_EDGE_INT`, the internal form of the DG inner-edge marker. */
  const DgInnerEdgeInt: int := -54125631
  /** `H2D_DG_INNER_EDGE`, its user (string) form. */
  const DgInnerEdge: string := "-54125631"

  /** The int a failed user -> internal lookup reports. */
  const UnknownInternal: int := -999
  /** The string a failed internal -> user lookup reports. */
  const UnknownUser: string := "-999"

  /** `MarkersConversion::StringValid`. */
  datatype StringValid = StringValid(marker: string, valid: bool)
  /** `MarkersConversion::IntValid`. */
  datatype IntValid = IntValid(marker: int, valid: bool)

  class MarkersConversion {
    /** `conversion_table`: internal -> user. */
    var table: map<int, string>
    /** `conversion_table_inverse`: user -> internal. */
    var inverse: map<string, int>
    /** `min_marker_unused`: the int the next new string gets. */
    var minMarkerUnused: int

    /**
     * The two tables are inverse bijections, and every issued int lies in
     * [1, minMarkerUnused).
     */
    ghost predicate Valid()
      reads this
    {
      minMarkerUnused >= 1
      && (forall k :: k in table ==> 1 <= k < minMarkerUnused && table[k] in inverse && inverse[table[k]] == k)
      && (forall s :: s in inverse ==> inverse[s] in table && table[inverse[s]] == s)
    }

    constructor ()
      ensures Valid()
      ensures table == map[] && inverse == map[] && minMarkerUnused == 1
    {
      table := map[];
      inverse := map[];
      minMarkerUnused := 1;
    }

    /** A copy with the same tables and counter. */
    constructor Copy(other: MarkersConversion)
      requires other.Valid()
      ensures Valid()
      ensures table == other.table && inverse == other.inverse && minMarkerUnused == other.minMarkerUnused
    {
      table := other.table;
      inverse := other.inverse;
      minMarkerUnused := other.minMarkerUnused;
    }

    /**
     * `insert_marker`: the int of `user`, issuing the next unused int and
     * recording it in both tables when `user` is new.  Idempotent: a second
     * insertion of the same string returns the same int and changes nothing.
     */
    method InsertMarker(user: string) returns (k: int)
      requires Valid()
      modifies this
      ensures Valid()
      ensures k >= 1 && user in inverse && inverse[user] == k && k in table && table[k] == user
      ensures user in old(inverse) ==>
        k == old(inverse[user]) && table == old(table) && inverse == old(inverse)
        && minMarkerUnused == old(minMarkerUnused)
      ensures user !in old(inverse) ==>
        k == old(minMarkerUnused) && k !in old(table)
        && table == old(table)[k := user] && inverse == old(inverse)[user := k]
        && minMarkerUnused == k + 1
    {
      if user in inverse {
        k := inverse[user];
        return;
      }
      k := minMarkerUnused;
      table := table[k := user];
      inverse := inverse[user := k];
      minMarkerUnused := minMarkerUnused + 1;
    }

    /** `get_user_marker`: the string of an internal marker, or ("-999", false). */
    function GetUserMarker(internal: int): (r: StringValid)
      reads this
      requires Valid()
      ensures internal == DgInnerEdgeInt ==> r == StringValid(DgInnerEdge, true)
      ensures internal != DgInnerEdgeInt ==> (r.valid <==> internal in table)
      ensures internal != DgInnerEdgeInt && r.valid ==> r.marker in inverse && inverse[r.marker] == internal
      ensures !r.valid ==> r.marker == UnknownUser
    {
      if internal == DgInnerEdgeInt then StringValid(DgInnerEdge, true)
      else if internal !in table then StringValid(UnknownUser, false)
      else StringValid(table[internal], true)
    }

    /** `get_internal_marker`: the int of a user marker, or (-999, false). */
    function GetInternalMarker(user: string): (r: IntValid)
      reads this
      requires Valid()
      ensures user == DgInnerEdge ==> r == IntValid(DgInnerEdgeInt, true)
      ensures user != DgInnerEdge ==> (r.valid <==> user in inverse)
      ensures user != DgInnerEdge && r.valid ==> r.marker >= 1 && r.marker in table && table[r.marker] == user
      ensures !r.valid ==> r.marker == UnknownInternal
    {
      if user == DgInnerEdge then IntValid(DgInnerEdgeInt, true)
      else if user !in inverse then IntValid(UnknownInternal, false)
      else IntValid(inverse[user], true)
    }

    /**
     * Round trip through both tables: a recorded user string other than the
     * sentinel's text maps to an int that maps back to it, and vice versa.
     */
    lemma RoundTrip(user: string, internal: int)
      requires Valid()
      ensures user in inverse && user != DgInnerEdge ==>
        GetUserMarker(GetInternalMarker(user).marker) == StringValid(user, true)
      ensures internal in table && table[internal] != DgInnerEdge ==>
        GetInternalMarker(GetUserMarker(internal).marker) == IntValid(internal, true)
    {
    }
  }

  /**
   * Two insertions of the same string into a fresh table, as a client sees
   * them: the second returns the first's int and leaves the table alone; a
   * different string then gets the next int.
   */
  method InsertIsIdempotent(s: string, t: string)
    requires s != t
  {
    var c := new MarkersConversion();
    var a := c.InsertMarker(s);
    var b := c.InsertMarker(s);
    var d := c.InsertMarker(t);
    assert a == 1 && b == 1 && d == 2;
    assert c.GetUserMarker(1) == StringValid(s, true);
    assert s != DgInnerEdge ==> c.GetInternalMarker(s) == IntValid(1, true);
  }
}
