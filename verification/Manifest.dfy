/** The members of the intermediate manifest, their serialised form and the checks of the reader. */
module Manifest {
  import opened Strings

  datatype PathType = FileType | DirectoryType | SymlinkType

  datatype TarMember = TarMember(
    memberPath: string, pathType: PathType, fsPath: Option<string>, mode: nat, owner: string, uid: int,
    group: string, gid: int, mtime: real, linkTarget: string, isVirtual: bool, maySteal: bool)

  datatype ManifestError =
    | BadField(key: string) | BadMode | CannotBeVirtual | VirtualWithFsPath | NeitherVirtualNorBacked
    | DirectoryWithoutSlash | BadSymlinkMode | NoLinkTarget | LinkTargetNotAllowed | AssertionFailed
    | EmptyManifest | RootNotFirst | NotInDirectory(path: string) | BadLinkPath

  datatype Json = JNull | JBool(b: bool) | JInt(i: int) | JReal(r: real) | JString(s: string)
  type Dict = map<string, Json>

  const SYMLINK_MODE: nat := 511
  const SCRATCH_DIR := "debputy/scratch-dir/"

  function ManifestKey(p: PathType): string {
    match p
    case FileType => "file"
    case DirectoryType => "directory"
    case SymlinkType => "symlink"
  }

  function KeyToPathType(k: string): Option<PathType> {
    if k == "file" then Some(FileType)
    else if k == "directory" then Some(DirectoryType)
    else if k == "symlink" then Some(SymlinkType)
    else None
  }

  predicate CanBeVirtual(p: PathType) {
    p == DirectoryType || p == SymlinkType
  }

  predicate Contains(s: string, sub: string) {
    StartsWith(s, sub) || (s != "" && Contains(s[1..], sub))
  }

  // ------------------------------------------------------------ octal numerals

  function OctDigits(n: nat): string {
    if n < 8 then ["01234567"[n]] else OctDigits(n / 8) + ["01234567"[n % 8]]
  }

  function OctDigit(c: char): Option<nat> {
    if '0' <= c <= '7' then Some((c as int) - ('0' as int)) else None
  }

  function ParseOct(s: string): Option<nat> {
    if s == "" then None
    else
      var d := OctDigit(s[|s| - 1]);
      if d == None then None
      else if |s| == 1 then d
      else
        var rest := ParseOct(s[..|s| - 1]);
        if rest == None then None else Some(8 * rest.value + d.value)
  }

  lemma {:induction false} OctRoundTrip(n: nat)
    ensures OctDigits(n) != "" && ParseOct(OctDigits(n)) == Some(n)
  {
    if n >= 8 {
      OctRoundTrip(n / 8);
      var s := OctDigits(n);
      assert s[..|s| - 1] == OctDigits(n / 8);
    }
  }

  lemma OctExample()
    ensures OctDigits(0x1ED) == "755"
  {
    assert OctDigits(7) == "7" && OctDigits(61) == "75";
  }

  // -------------------------------------------------------------- serialisation

  function OptString(o: Option<string>): Json {
    if o == None then JNull else JString(o.value)
  }

  /** `to_manifest`: redundant fields are left out. */
  function ToManifest(m: TarMember): Result<Dict, ManifestError> {
    var all: Dict := map[
      "member_path" := JString(m.memberPath), "path_type" := JString(ManifestKey(m.pathType)),
      "fs_path" := OptString(m.fsPath), "mode" := JString("0o" + OctDigits(m.mode)),
      "owner" := JString(m.owner), "uid" := JInt(m.uid), "group" := JString(m.group), "gid" := JInt(m.gid),
      "mtime" := JReal(m.mtime), "link_target" := JString(m.linkTarget),
      "is_virtual_entry" := JBool(m.isVirtual), "may_steal_fs_path" := JBool(m.maySteal)];
    var d := if m.linkTarget == "" then all - {"link_target"} else all;
    if m.isVirtual then
      if m.fsPath != None then Failure(AssertionFailed) else Success(d - {"fs_path"})
    else Success(d - {"is_virtual_entry"})
  }

  function NeedString(d: Dict, key: string): Result<string, ManifestError> {
    if key in d && d[key].JString? then Success(d[key].s) else Failure(BadField(key))
  }

  function NeedInt(d: Dict, key: string): Result<int, ManifestError> {
    if key in d && d[key].JInt? then Success(d[key].i) else Failure(BadField(key))
  }

  function NeedReal(d: Dict, key: string): Result<real, ManifestError> {
    if key in d && d[key].JReal? then Success(d[key].r)
    else if key in d && d[key].JInt? then Success(d[key].i as real)
    else Failure(BadField(key))
  }

  function GetString(d: Dict, key: string): Result<Option<string>, ManifestError> {
    if key !in d || d[key].JNull? then Success(None)
    else if d[key].JString? then Success(Some(d[key].s))
    else Failure(BadField(key))
  }

  function GetBool(d: Dict, key: string): Result<bool, ManifestError> {
    if key !in d || d[key].JNull? then Success(false)
    else if d[key].JBool? then Success(d[key].b)
    else Failure(BadField(key))
  }

  /** `from_dict`, with its checks in their order. */
  function FromDict(d: Dict): Result<TarMember, ManifestError> {
    var memberPath :- NeedString(d, "member_path");
    var rawMode :- NeedString(d, "mode");
    if !StartsWith(rawMode, "0o") then Failure(BadMode)
    else
      var isVirtual :- GetBool(d, "is_virtual_entry");
      var typeKey :- NeedString(d, "path_type");
      var fsPath :- GetString(d, "fs_path");
      if KeyToPathType(typeKey) == None then Failure(BadField("path_type"))
      else if ParseOct(rawMode[2..]) == None then Failure(BadMode)
      else
        var pathType, mode := KeyToPathType(typeKey).value, ParseOct(rawMode[2..]).value;
        var linkTarget :- GetString(d, "link_target");
        var maySteal :- GetBool(d, "may_steal_fs_path");
        if isVirtual && !CanBeVirtual(pathType) then Failure(CannotBeVirtual)
        else if isVirtual && fsPath != None then Failure(VirtualWithFsPath)
        else if !isVirtual && fsPath == None then Failure(NeitherVirtualNorBacked)
        else if pathType == DirectoryType && !EndsWithSlash(memberPath) then Failure(DirectoryWithoutSlash)
        else if pathType == SymlinkType && mode != SYMLINK_MODE then Failure(BadSymlinkMode)
        else if pathType == SymlinkType && (linkTarget == None || linkTarget.value == "") then Failure(NoLinkTarget)
        else if pathType != SymlinkType && linkTarget != None && linkTarget.value != "" then
          Failure(LinkTargetNotAllowed)
        else if maySteal && (fsPath == None || !Contains(fsPath.value, SCRATCH_DIR)) then Failure(AssertionFailed)
        else
          var owner :- NeedString(d, "owner");
          var uid :- NeedInt(d, "uid");
          var group :- NeedString(d, "group");
          var gid :- NeedInt(d, "gid");
          var mtime :- NeedReal(d, "mtime");
          Success(TarMember(memberPath, pathType, fsPath, mode, owner, uid, group, gid, mtime,
                            if pathType == SymlinkType then linkTarget.value else "", isVirtual, maySteal))
  }

  /** What a member must be like for its serialised form to be accepted. */
  predicate Consistent(m: TarMember) {
    && (if m.isVirtual then CanBeVirtual(m.pathType) && m.fsPath == None else m.fsPath.Some?)
    && (m.pathType == DirectoryType ==> EndsWithSlash(m.memberPath))
    && (if m.pathType == SymlinkType then m.mode == SYMLINK_MODE && m.linkTarget != "" else m.linkTarget == "")
    && (m.maySteal ==> m.fsPath.Some? && Contains(m.fsPath.value, SCRATCH_DIR))
  }

  /** Writing a member and reading it gives the member back if and only if it is consistent;
      an inconsistent one is refused on one side or the other. */
  lemma RoundTrip(m: TarMember)
    ensures Consistent(m) ==> ToManifest(m).Success? && FromDict(ToManifest(m).value) == Success(m)
    ensures !Consistent(m) ==> ToManifest(m).Failure? || FromDict(ToManifest(m).value).Failure?
  {
    if ToManifest(m).Success? {
      var d := ToManifest(m).value;
      WrittenStrings(m, d);
      WrittenNumbers(m, d);
      WrittenOptional(m, d);
      WrittenMode(m, d);
      ReadBack(m, d);
    }
  }

  /** What a reader finds in the serialised form of m. */
  ghost predicate WrittenAs(m: TarMember, d: Dict) {
    && NeedString(d, "member_path") == Success(m.memberPath)
    && NeedString(d, "path_type") == Success(ManifestKey(m.pathType))
    && NeedString(d, "owner") == Success(m.owner) && NeedString(d, "group") == Success(m.group)
    && NeedInt(d, "uid") == Success(m.uid) && NeedInt(d, "gid") == Success(m.gid)
    && NeedReal(d, "mtime") == Success(m.mtime)
    && GetString(d, "fs_path") == Success(m.fsPath)
    && GetString(d, "link_target") == Success(if m.linkTarget == "" then None else Some(m.linkTarget))
    && GetBool(d, "is_virtual_entry") == Success(m.isVirtual)
    && GetBool(d, "may_steal_fs_path") == Success(m.maySteal)
    && var rawMode := NeedString(d, "mode");
       rawMode.Success? && StartsWith(rawMode.value, "0o") && ParseOct(rawMode.value[2..]) == Some(m.mode)
  }

  lemma ReadBack(m: TarMember, d: Dict)
    requires WrittenAs(m, d)
    ensures if Consistent(m) then FromDict(d) == Success(m) else FromDict(d).Failure?
  {
  }

  lemma WrittenStrings(m: TarMember, d: Dict)
    requires ToManifest(m) == Success(d)
    ensures NeedString(d, "member_path") == Success(m.memberPath)
    ensures NeedString(d, "path_type") == Success(ManifestKey(m.pathType))
    ensures NeedString(d, "owner") == Success(m.owner) && NeedString(d, "group") == Success(m.group)
  {
  }

  lemma WrittenNumbers(m: TarMember, d: Dict)
    requires ToManifest(m) == Success(d)
    ensures NeedInt(d, "uid") == Success(m.uid) && NeedInt(d, "gid") == Success(m.gid)
    ensures NeedReal(d, "mtime") == Success(m.mtime)
  {
  }

  lemma WrittenOptional(m: TarMember, d: Dict)
    requires ToManifest(m) == Success(d)
    ensures GetString(d, "fs_path") == Success(m.fsPath)
    ensures GetString(d, "link_target") == Success(if m.linkTarget == "" then None else Some(m.linkTarget))
    ensures GetBool(d, "is_virtual_entry") == Success(m.isVirtual)
    ensures GetBool(d, "may_steal_fs_path") == Success(m.maySteal)
  {
  }

  lemma WrittenMode(m: TarMember, d: Dict)
    requires ToManifest(m) == Success(d)
    ensures var rawMode := NeedString(d, "mode");
      rawMode.Success? && StartsWith(rawMode.value, "0o") && ParseOct(rawMode.value[2..]) == Some(m.mode)
  {
    OctRoundTrip(m.mode);
    assert d["mode"] == JString("0o" + OctDigits(m.mode));
    assert ("0o" + OctDigits(m.mode))[2..] == OctDigits(m.mode);
  }

  // -------------------------------------------------------------------- reading

  /** `_dirname` */
  function DirnameOf(path: string): string {
    var p := RStrip(path);
    if p == "." then p else Dirname(p)
  }

  function AddsDir(m: TarMember): set<string> {
    if m.pathType == DirectoryType then {RStrip(m.memberPath)} else {}
  }

  /** Every member lies in a directory that is known or was listed before it. */
  predicate InOrder(ms: seq<TarMember>, dirs: set<string>) {
    ms == [] || (DirnameOf(ms[0].memberPath) in dirs && InOrder(ms[1..], dirs + AddsDir(ms[0])))
  }

  predicate WellOrdered(ms: seq<TarMember>) {
    ms != [] && ms[0].memberPath == "./" && InOrder(ms, {"."})
  }

  /** The order in terms of positions. */
  lemma {:induction false} InOrderMeans(ms: seq<TarMember>, dirs: set<string>)
    ensures InOrder(ms, dirs) <==>
      forall i :: 0 <= i < |ms| ==>
        DirnameOf(ms[i].memberPath) in dirs || ListedBefore(ms, i, DirnameOf(ms[i].memberPath))
  {
    if ms != [] {
      var rest := ms[1..];
      InOrderMeans(rest, dirs + AddsDir(ms[0]));
      forall i | 0 <= i < |rest|
        ensures rest[i] == ms[i + 1]
        ensures forall dir: string {:trigger ListedBefore(ms, i + 1, dir)} ::
          ListedBefore(ms, i + 1, dir) <==> dir in AddsDir(ms[0]) || ListedBefore(rest, i, dir)
      {
        forall dir: string
          ensures ListedBefore(ms, i + 1, dir) <==> dir in AddsDir(ms[0]) || ListedBefore(rest, i, dir)
        {
        }
      }
      assert !ListedBefore(ms, 0, DirnameOf(ms[0].memberPath));
      forall i | 0 <= i < |ms|
        ensures i > 0 ==>
          (DirnameOf(ms[i].memberPath) in dirs || ListedBefore(ms, i, DirnameOf(ms[i].memberPath)) <==>
           DirnameOf(rest[i - 1].memberPath) in dirs + AddsDir(ms[0])
             || ListedBefore(rest, i - 1, DirnameOf(rest[i - 1].memberPath)))
      {
      }
    }
  }

  predicate ListedBefore(ms: seq<TarMember>, i: nat, dir: string)
    requires i <= |ms|
  {
    exists j :: 0 <= j < i && dir in AddsDir(ms[j])
  }

  function FromDicts(data: seq<Dict>): Result<seq<TarMember>, ManifestError> {
    if data == [] then Success([])
    else
      var m :- FromDict(data[0]);
      var rest :- FromDicts(data[1..]);
      Success([m] + rest)
  }

  /** `parse_intermediate_manifest`, from the decoded JSON on. */
  method ParseIntermediateManifest(data: seq<Dict>) returns (r: Result<seq<TarMember>, ManifestError>)
    ensures FromDicts(data).Failure? ==> r == FromDicts(data)
    ensures FromDicts(data).Success? && WellOrdered(FromDicts(data).value) ==> r == FromDicts(data)
    ensures FromDicts(data).Success? && !WellOrdered(FromDicts(data).value) ==> r.Failure?
  {
    var contents := FromDicts(data);
    if contents.Failure? {
      return contents;
    }
    var members := contents.value;
    if members == [] {
      return Failure(EmptyManifest);
    }
    if members[0].memberPath != "./" {
      return Failure(RootNotFirst);
    }
    var directories := {"."};
    for i := 0 to |members|
      invariant InOrder(members, {"."}) == InOrder(members[i..], directories)
    {
      assert members[i..][1..] == members[i + 1..];
      var member := members[i];
      if DirnameOf(member.memberPath) !in directories {
        return Failure(NotInDirectory(member.memberPath));
      }
      assert directories + {} == directories;
      if member.pathType == DirectoryType {
        directories := directories + {RStrip(member.memberPath)};
      }
    }
    r := contents;
  }
}
