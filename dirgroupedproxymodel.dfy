/**
  DirGroupedProxyModel: a filter over the list model that keeps the rows
  whose value for one role equals one filter value.
 */
module DirGroupedProxyModel {
  import opened KDirectoryEntry
  import opened DirListModel

  class Proxy {
    var acceptedRole: int
    var filterValue: Variant

    /** DirGroupedProxyModel(): a value-initialised role (0) and the empty filter value. */
    constructor ()
      ensures acceptedRole == 0 && filterValue == Invalid
    {
      acceptedRole := 0;
      filterValue := Invalid;
    }

    /** setRoleFilter(acceptedRole, value): both are replaced. */
    method SetRoleFilter(role: int, value: Variant)
      modifies this
      ensures acceptedRole == role && filterValue == value
    {
      if acceptedRole != role {
        acceptedRole := role;
      }
      filterValue := value;
    }

    /**
      filterAcceptsRow(sourceRow): with the None role every row passes;
      otherwise the row passes when the source model's data for its first
      cell and the accepted role equals the filter value.
     */
    function FilterAcceptsRow(e: Entry, lookup: Lookup): (r: bool)
      reads this
      ensures acceptedRole == None ==> r
      ensures acceptedRole != None ==> (r <==> IndexData(true, e, 0, acceptedRole, lookup) == filterValue)
    {
      if acceptedRole == None then true
      else
        var val := IndexData(true, e, 0, acceptedRole, lookup);
        val == filterValue
    }
  }

  /**
    On a column role, a filter keeps a row exactly when the row's value for
    that role, as data(row, role) gives it, is the filter value.
   */
  lemma AcceptsByRowValue(p: Proxy, e: Entry, lookup: Lookup)
    requires Name <= p.acceptedRole <= Hidden
    ensures p.FilterAcceptsRow(e, lookup) <==> RowData(e, p.acceptedRole, lookup) == p.filterValue
  {
  }

  /**
    Filters on one role with pairwise different filter values split the
    rows: no row passes two of them, and a row passes the one whose value
    is its own.
   */
  lemma FiltersPartitionRows(ps: seq<Proxy>, role: int, e: Entry, lookup: Lookup)
    requires Name <= role <= Hidden
    requires forall i :: 0 <= i < |ps| ==> ps[i].acceptedRole == role
    requires forall i, j :: 0 <= i < j < |ps| ==> ps[i].filterValue != ps[j].filterValue
    ensures forall i, j :: 0 <= i < |ps| && 0 <= j < |ps| && ps[i].FilterAcceptsRow(e, lookup) && ps[j].FilterAcceptsRow(e, lookup) ==> i == j
    ensures forall i :: 0 <= i < |ps| ==> (ps[i].FilterAcceptsRow(e, lookup) <==> ps[i].filterValue == RowData(e, role, lookup))
  {
    forall i | 0 <= i < |ps|
      ensures ps[i].FilterAcceptsRow(e, lookup) <==> ps[i].filterValue == RowData(e, role, lookup)
    {
      AcceptsByRowValue(ps[i], e, lookup);
    }
  }
}
