/**
  KDirectoryEntry: one entry of a directory listing, built from the UDS
  record a KIO listing delivers (its name and its file-type bits), and the
  name and type helpers the models use.
 */
module KDirectoryEntry {

  /** The file-type field of st_mode, and the two types the entry tests for (sys/stat.h). */
  const S_IFMT: bv32 := 0xF000
  const S_IFDIR: bv32 := 0x4000
  const S_IFLNK: bv32 := 0xA000

  /** The two fields of a UDS record the entry reads: UDS_NAME and UDS_FILE_TYPE. */
  datatype UdsEntry = UdsEntry(name: string, fileType: bv32)

  datatype Entry = Entry(name: string, fileMode: bv32, fullDataAvailable: bool)

  /**
    KDirectoryEntry(entry, details): the name and the file type; "0" details
    parse the bare record, any other details the full one, which only marks
    the data as complete.
   */
  function FromUds(uds: UdsEntry, details: string): (e: Entry)
    ensures e.name == uds.name && e.fileMode == uds.fileType
    ensures e.fullDataAvailable <==> details != "0"
  {
    Entry(uds.name, uds.fileType, details != "0")
  }

  /** The entry of an empty UDS record. */
  const EmptyEntry: Entry := Entry("", 0, false)

  /** The position of the last dot among the first n characters of s, -1 when there is none. */
  function LastDotBefore(s: string, n: nat): (i: int)
    requires n <= |s|
    ensures -1 <= i < n
    ensures i >= 0 ==> s[i] == '.'
    ensures forall j :: i < j < n ==> s[j] != '.'
  {
    if n == 0 then -1
    else if s[n - 1] == '.' then n - 1
    else LastDotBefore(s, n - 1)
  }

  /** QString::lastIndexOf("."): the position of the last dot, -1 when there is none. */
  function LastDot(s: string): (i: int)
    ensures -1 <= i < |s|
    ensures i >= 0 ==> s[i] == '.'
    ensures forall j :: i < j < |s| ==> s[j] != '.'
  {
    LastDotBefore(s, |s|)
  }

  /** QString::left(n): the whole string when n is negative or at least the length. */
  function Left(s: string, n: int): string {
    if n < 0 || n >= |s| then s else s[..n]
  }

  /** QString::right(n): the whole string when n is negative or at least the length. */
  function Right(s: string, n: int): string {
    if n < 0 || n >= |s| then s else s[|s| - n..]
  }

  /** m_name[0]: reading past the end of a QString through a reference gives QChar(0). */
  function FirstChar(s: string): char {
    if s == [] then '\0' else s[0]
  }

  /** basename(): the name up to, not including, its last dot; the whole name without a dot. */
  function Basename(e: Entry): (r: string)
    ensures r <= e.name
    ensures (forall j :: 0 <= j < |e.name| ==> e.name[j] != '.') ==> r == e.name
    ensures r != e.name ==> |r| < |e.name| && e.name[|r|] == '.'
    ensures r != e.name ==> forall j :: |r| < j < |e.name| ==> e.name[j] != '.'
    ensures r == e.name ==> forall j :: 0 <= j < |e.name| ==> e.name[j] != '.'
  {
    Left(e.name, LastDot(e.name))
  }

  /**
    extension(): for a name not starting with a dot, whose last dot is not
    its first character, the text after that dot; otherwise empty.
   */
  function Extension(e: Entry): (r: string)
    ensures forall j :: 0 <= j < |r| ==> r[j] != '.'
    ensures r != [] ==> |r| < |e.name| && r == e.name[|e.name| - |r|..] && e.name[|e.name| - |r| - 1] == '.'
    ensures e.name != [] && e.name[0] == '.' ==> r == []
  {
    if FirstChar(e.name) != '.' then
      var lastDot := LastDot(e.name);
      if lastDot > 0 then Right(e.name, |e.name| - lastDot - 1) else ""
    else ""
  }

  /** isHidden(): a non-empty name that starts with a dot. */
  function IsHidden(e: Entry): (r: bool)
    ensures r ==> e.name != [] && e.name[0] == '.'
    ensures e.name != [] && e.name[0] == '.' ==> r
  {
    if e.name == "" then false else e.name[0] == '.'
  }

  /** isDir(): S_ISDIR of the mode. */
  function IsDir(e: Entry): (r: bool)
    ensures r <==> (e.fileMode >> 12) & 0xF == 4
  {
    e.fileMode & S_IFMT == S_IFDIR
  }

  /** isLink(): S_ISLNK of the mode. */
  function IsLink(e: Entry): (r: bool)
    ensures r <==> (e.fileMode >> 12) & 0xF == 0xA
    ensures r ==> !IsDir(e)
  {
    e.fileMode & S_IFMT == S_IFLNK
  }

  /** isFile(): everything that is not a directory. */
  function IsFile(e: Entry): (r: bool)
    ensures r <==> !IsDir(e)
  {
    !IsDir(e)
  }

  /** isWritable(): never, in this revision. */
  function IsWritable(e: Entry): (r: bool)
    ensures !r
  {
    false
  }

  /** isReadable(): the stat data it would read is never filled in, so never either. */
  function IsReadable(e: Entry): (r: bool)
    ensures !r
  {
    false
  }

  /** A name that does not start with a dot and has one is basename, the dot, and extension. */
  lemma BasenameDotExtension(e: Entry)
    requires e.name != [] && e.name[0] != '.' && '.' in e.name
    ensures Basename(e) + "." + Extension(e) == e.name
  {
    var d := LastDot(e.name);
    assert d > 0;
    assert Basename(e) == e.name[..d];
    assert Extension(e) == e.name[d + 1..];
    assert e.name == e.name[..d] + [e.name[d]] + e.name[d + 1..];
  }

  /** A hidden entry has no extension; an entry with an extension is not hidden. */
  lemma HiddenHasNoExtension(e: Entry)
    ensures IsHidden(e) ==> Extension(e) == ""
    ensures Extension(e) != "" ==> !IsHidden(e) && '.' in e.name
  {
    if Extension(e) != "" {
      var r := Extension(e);
      assert e.name[|e.name| - |r| - 1] == '.';
    }
  }

  /** The file type bits name one type: a directory is never a link. */
  lemma DirIsNotLink(e: Entry)
    ensures !(IsDir(e) && IsLink(e))
  {
  }

  /** The type tests only see the file-type bits: permission bits change nothing. */
  lemma TypeIgnoresPermissions(e: Entry, perms: bv32)
    requires perms & S_IFMT == 0
    ensures IsDir(e.(fileMode := e.fileMode | perms)) == IsDir(e)
    ensures IsLink(e.(fileMode := e.fileMode | perms)) == IsLink(e)
  {
    assert (e.fileMode | perms) & S_IFMT == e.fileMode & S_IFMT;
  }
}
