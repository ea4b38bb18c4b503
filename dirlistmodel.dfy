/**
  DirListModel: the flat list model over one directory. Its rows are the
  entries that have arrived, its roles the entry properties, and its
  columns the same roles read left to right.
 */
module DirListModel {
  import opened KDirectoryEntry
  import KDirectory

  /**
    The QVariant values the models hand around. A valid value is a string,
    a boolean or an integer; Invalid is QVariant().
   */
  datatype Variant = Invalid | Str(s: string) | Bool(b: bool) | Int(i: int)

  /** Qt::ItemDataRole */
  const DisplayRole: int := 0
  const DecorationRole: int := 1
  const UserRole: int := 0x0100

  /** DirListModel::Roles, from Qt::UserRole + 1 upward */
  const Name: int := UserRole + 1
  const BaseName: int := UserRole + 2
  const Extension: int := UserRole + 3
  const MimeComment: int := UserRole + 4
  const MimeIcon: int := UserRole + 5
  const Thumbnail: int := UserRole + 6
  const Size: int := UserRole + 7
  const ModificationTime: int := UserRole + 8
  const AccessTime: int := UserRole + 9
  const CreationTime: int := UserRole + 10
  const User: int := UserRole + 11
  const Group: int := UserRole + 12
  const Hidden: int := UserRole + 13
  const None: int := UserRole + 14

  /** The column labels, in role order. */
  const HeaderNames: seq<string> := [
    "Name", "Base name", "Extension", "MIME Comment", "MIME Icon", "Thumbnail",
    "Size", "Modification time", "Access time", "Creation time", "User", "Group"]

  const UnknownHeaderName: string := "UNKNOWN_HEADER_NAME"

  /** The QML names of the column roles, in role order. */
  const RoleNameList: seq<string> := [
    "name", "baseName", "extension", "mimeComment", "mimeIcon", "thumbnail",
    "size", "modificationTime", "accessTime", "creationTime", "user", "group"]

  /** roleNames(): each column role to its QML name. */
  const RoleNames: map<int, string> := map r | Name <= r <= Group :: RoleNameList[r - Name]

  /**
    The value an entry has for a role that the entry alone does not answer:
    the MIME database, the stat data and the owner names.
   */
  type Lookup = (Entry, int) -> Variant

  /** headerName(role): the label of a column role, UNKNOWN_HEADER_NAME for any other role. */
  function HeaderName(role: int): (r: string)
    ensures Name <= role <= Group ==> r == HeaderNames[role - Name]
    ensures !(Name <= role <= Group) ==> r == UnknownHeaderName
  {
    var newRole := role - (UserRole + 1);
    if newRole < |HeaderNames| && newRole >= 0 then HeaderNames[newRole] else UnknownHeaderName
  }

  /** Every column role has its own label, and no column role is labelled UNKNOWN_HEADER_NAME. */
  lemma HeaderNamesDistinct(a: int, b: int)
    requires Name <= a <= Group && Name <= b <= Group
    ensures HeaderName(a) != UnknownHeaderName
    ensures HeaderName(a) == HeaderName(b) ==> a == b
  {
    var hs := HeaderNames;
    assert forall i, j :: 0 <= i < j < |hs| ==> hs[i] != hs[j] by {
      forall i, j | 0 <= i < j < |hs|
        ensures hs[i] != hs[j]
      {
        assert hs[i][0] != hs[j][0] || |hs[i]| != |hs[j]| || hs[i][1] != hs[j][1]
          || hs[i][|hs[i]| - 1] != hs[j][|hs[j]| - 1];
      }
    }
  }

  /**
    The header labels and the role names list the same roles: a role has a
    QML name exactly when it has a header label, and then both come from
    the same position of their tables.
   */
  lemma HeaderOrderMatchesRoleNames(role: int)
    ensures role in RoleNames <==> HeaderName(role) != UnknownHeaderName
    ensures role in RoleNames ==> HeaderName(role) == HeaderNames[role - Name] && RoleNames[role] == RoleNameList[role - Name]
  {
    if Name <= role <= Group {
      HeaderNamesDistinct(role, role);
    }
  }

  /**
    headerData(section, orientation, role): a horizontal header asked for
    its display text gives the label of the section's column; every other
    request gives the empty value.
   */
  function HeaderData(section: int, horizontal: bool, role: int): (r: Variant)
    ensures r != Invalid <==> horizontal && role == DisplayRole
    ensures horizontal && role == DisplayRole && 0 <= section < |HeaderNames| ==> r == Str(HeaderNames[section])
    ensures horizontal && role == DisplayRole && !(0 <= section < |HeaderNames|) ==> r == Str(UnknownHeaderName)
  {
    if horizontal && role == DisplayRole then Str(HeaderName(UserRole + 1 + section)) else Invalid
  }

  /** The role data(index, role) reads for a cell: the role itself above UserRole, otherwise the column's role. */
  function SwitchVal(column: int, role: int): int {
    if role > UserRole then role else column + UserRole + 1
  }

  /**
    data(row, role): the value of an entry for a role. The name roles come
    from the entry, the other column roles from `lookup`, Thumbnail is a
    fixed placeholder and any other role gives the empty value.
   */
  function RowData(e: Entry, role: int, lookup: Lookup): (r: Variant)
    ensures !(Name <= role <= Hidden) ==> r == Invalid
    ensures role == Name ==> r == Str(e.name)
    ensures role == BaseName ==> r == Str(Basename(e))
    ensures role == Extension ==> r == Str(KDirectoryEntry.Extension(e))
    ensures role == Hidden ==> r == Bool(IsHidden(e))
    ensures role == Thumbnail ==> r == Str("TO_BE_IMPLEMENTED")
    ensures MimeComment <= role <= Group && role != Thumbnail ==> r == lookup(e, role)
  {
    if role == Name then Str(e.name)
    else if role == BaseName then Str(Basename(e))
    else if role == Extension then Str(KDirectoryEntry.Extension(e))
    else if role == Hidden then Bool(IsHidden(e))
    else if role == MimeComment || role == MimeIcon then lookup(e, role)
    else if role == Thumbnail then Str("TO_BE_IMPLEMENTED")
    else if Size <= role <= Group then lookup(e, role)
    else Invalid
  }

  /** The roles the entry answers by itself give the same value whatever the outside data. */
  lemma NameRolesIgnoreLookup(e: Entry, role: int, l1: Lookup, l2: Lookup)
    requires role in {Name, BaseName, Extension, Hidden, Thumbnail}
    ensures RowData(e, role, l1) == RowData(e, role, l2)
  {
  }

  /** For a name with a dot that does not start with one, the BaseName and Extension cells rebuild the Name cell. */
  lemma NameCellsReassemble(e: Entry, lookup: Lookup)
    requires e.name != [] && e.name[0] != '.' && '.' in e.name
    ensures RowData(e, BaseName, lookup).s + "." + RowData(e, Extension, lookup).s == RowData(e, Name, lookup).s
  {
    BasenameDotExtension(e);
  }

  /**
    data(index, role) for the entry at index.row(): an invalid index and a
    role that is neither DisplayRole nor above UserRole give the empty
    value; above UserRole the role picks the value whatever the column;
    DisplayRole shows the column's role.
   */
  function IndexData(valid: bool, e: Entry, column: int, role: int, lookup: Lookup): (r: Variant)
    ensures !valid ==> r == Invalid
    ensures valid && role > UserRole ==> r == RowData(e, role, lookup)
    ensures valid && role == DisplayRole ==> r == RowData(e, column + UserRole + 1, lookup)
    ensures role != DisplayRole && role <= UserRole ==> r == Invalid
  {
    if !valid then Invalid
    else
      var switchVal := SwitchVal(column, role);
      if role == DisplayRole || role > UserRole then RowData(e, switchVal, lookup)
      else Invalid
  }

  /**
    The header of column c labels the role its display cells show: the
    horizontal header's text is the header name of the role data(index,
    DisplayRole) reads in that column.
   */
  lemma HeaderLabelsColumn(c: int)
    requires 0 <= c < |HeaderNames|
    ensures HeaderData(c, true, DisplayRole) == Str(HeaderName(SwitchVal(c, DisplayRole)))
    ensures Name <= SwitchVal(c, DisplayRole) <= Group
  {
  }

  class ListModel {
    var dir: KDirectory.Directory?
    var path: string
    var details: string
    var currentRowCount: int
    var doneLoading: bool

    /** DirListModel(): no directory, empty path, "0" details, no rows. */
    constructor ()
      ensures dir == null && path == "" && details == "0" && currentRowCount == 0 && !doneLoading
    {
      dir := null;
      path := "";
      details := "0";
      currentRowCount := 0;
      doneLoading := false;
    }

    /**
      setPath(path, reload): a different path is stored and the rows are
      reset to none (`changed`). Then the lister is asked to open the path
      (`opens`) on a reload or when it is not listing the path yet; the
      listing itself is I/O and happens elsewhere. When it is already listing
      the path, `listing` is the directory it gives for it, and that
      directory is completed at once, as slotCompleted does.
     */
    method SetPath(p: string, reload: bool, listing: KDirectory.Directory?) returns (changed: bool, opens: bool)
      requires listing != null ==> listing.Valid()
      modifies this
      ensures changed <==> old(path) != p
      ensures path == p && details == old(details)
      ensures opens <==> reload || listing == null
      ensures opens ==>
        dir == old(dir) && doneLoading == old(doneLoading)
        && currentRowCount == (if changed then 0 else old(currentRowCount))
      ensures !opens ==> doneLoading
      ensures !opens && |listing.entries| > (if changed then 0 else old(currentRowCount)) ==>
        dir == listing && currentRowCount == |listing.entries|
      ensures !opens && |listing.entries| <= (if changed then 0 else old(currentRowCount)) ==>
        dir == old(dir) && currentRowCount == (if changed then 0 else old(currentRowCount))
    {
      changed := path != p;
      if changed {
        path := p;
        currentRowCount := 0;
      }
      opens := reload || listing == null;
      if !opens {
        SlotCompleted(listing);
      }
    }

    /** setDetails(details): stores the details; `changed` (detailsChanged) only when they differ. */
    method SetDetails(d: string) returns (changed: bool)
      modifies this
      ensures changed <==> old(details) != d
      ensures details == d
      ensures dir == old(dir) && path == old(path) && currentRowCount == old(currentRowCount)
      ensures doneLoading == old(doneLoading)
    {
      changed := details != d;
      if changed {
        details := d;
      }
    }

    /** rowCount(): no rows without a directory, otherwise the rows announced so far. */
    function RowCount(): (n: int)
      reads this
      ensures dir == null ==> n == 0
      ensures dir != null ==> n == currentRowCount
    {
      if dir != null then currentRowCount else 0
    }

    /**
      slotDirectoryContentChanged(dir): the model now shows `d`, and the row
      count is raised to the directory's entry count, never lowered.
     */
    method SlotDirectoryContentChanged(d: KDirectory.Directory)
      requires d.Valid()
      modifies this
      ensures dir == d
      ensures currentRowCount >= old(currentRowCount) && currentRowCount >= |d.entries|
      ensures currentRowCount == old(currentRowCount) || currentRowCount == |d.entries|
      ensures RowCount() == currentRowCount
      ensures path == old(path) && details == old(details) && doneLoading == old(doneLoading)
    {
      if dir != d {
        dir := d;
      }
      if currentRowCount < d.count {
        currentRowCount := d.count;
      }
    }

    /**
      slotCompleted(dir): entries left over since the last change are
      announced as for slotDirectoryContentChanged, and loading is done. A
      directory with no new entries does not replace the shown one.
     */
    method SlotCompleted(d: KDirectory.Directory)
      requires d.Valid()
      modifies this
      ensures doneLoading
      ensures |d.entries| > old(currentRowCount) ==> dir == d && currentRowCount == |d.entries|
      ensures |d.entries| <= old(currentRowCount) ==> dir == old(dir) && currentRowCount == old(currentRowCount)
      ensures path == old(path) && details == old(details)
    {
      if d.count > currentRowCount {
        SlotDirectoryContentChanged(d);
      }
      doneLoading := true;
    }
  }
}
