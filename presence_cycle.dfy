/** One cycle of RpcPackage.RpcUpdate (RpcPackage.cs): how the rich-presence
    record is rebuilt from what Visual Studio shows at that moment.  The DTE
    automation object is replaced by a snapshot value; everything else is the
    string and path handling of the cycle and the icon whitelist. */
module PresenceCycle {
  import opened DotNet

  datatype Option<+T> = None | Some(value: T)

  /** The icon keys the Discord application knows: knownNames, in the order
      they are listed.  Only membership is ever asked of it. */
  const KnownNames: seq<string> := [
    "file_aspx", "file_config", "file_cpp", "file_cs", "file_css", "file_dgsl",
    "file_dll", "file_fs", "file_fxg", "file_glsl", "file_h", "file_html",
    "file_ico", "file_js", "file_json", "file_jsx", "file_m", "file_mtl",
    "file_obj", "file_php", "file_ps1", "file_py", "file_r", "file_rb",
    "file_reg", "file_snk", "file_sql", "file_stl", "file_tif", "file_ts",
    "file_txt", "file_vb", "file_vbs", "file_xaml", "file_xml", "file_zip"
  ]

  /** knownNames.Contains(key): whether some row of `names` is exactly `key`
      (an ordinal comparison, case included). */
  predicate Listed(key: string, names: seq<string>)
    decreases |names|
  {
    names != [] && (names[0] == key || Listed(key, names[1..]))
  }

  /** The search finds exactly the members of the list. */
  lemma {:induction false} ListedIsMembership(key: string, names: seq<string>)
    ensures Listed(key, names) <==> key in names
  {
    if names != [] {
      ListedIsMembership(key, names[1..]);
      assert names == [names[0]] + names[1..];
    }
  }

  /** The branding image every record shows. */
  const LargeImageKey: string := "logo"

  /** What dte.Solution exposes: FullName and FileName. */
  datatype Solution = Solution(fullName: string, fileName: string)

  /** What reading dte.ActiveDocument gives: no document, a document with its
      Name, or a COM exception thrown by the read (caught by the cycle). */
  datatype ActiveDocument = NoActiveDocument | Document(name: string) | ActiveDocumentThrows

  /** What GetGlobalService(typeof(DTE)) sees in one cycle: no DTE, or a DTE
      with an optional solution and the active-document read. */
  datatype Snapshot = NoDte | Dte(solution: Option<Solution>, activeDocument: ActiveDocument)

  /** DiscordRpc.RichPresence, restricted to the fields the cycle writes. */
  datatype RichPresence = RichPresence(
    details: string,
    state: string,
    smallImageKey: string,
    largeImageKey: string,
    startTimestamp: int)

  /** A freshly constructed record (new DiscordRpc.RichPresence()): no text,
      no timestamp. */
  const Blank: RichPresence := RichPresence("", "", "", "", 0)

  /** The condition for a "Working on" line: a DTE, a solution, and a
      non-empty solution path. */
  predicate SolutionOpen(s: Snapshot) {
    s.Dte? && s.solution.Some? && s.solution.value.fullName != ""
  }

  /** The condition for an "Editing" line: a DTE whose active document could be
      read and exists. */
  predicate DocumentActive(s: Snapshot) {
    s.Dte? && s.activeDocument.Document?
  }

  /** rpc.details: "Working on " and the solution's file name without its
      extension, or "" when no solution is open. */
  function Details(s: Snapshot): (d: string)
    ensures d != "" <==> SolutionOpen(s)
    ensures SolutionOpen(s) ==>
      |d| >= 11 && d[..11] == "Working on " &&
      d[11..] == FileNameWithoutExtension(s.solution.value.fileName)
  {
    if SolutionOpen(s) then "Working on " + FileNameWithoutExtension(s.solution.value.fileName)
    else ""
  }

  /** rpc.state: "Editing " and the active document's name, or "" when there is
      no readable active document. */
  function State(s: Snapshot): (st: string)
    ensures st != "" <==> DocumentActive(s)
    ensures DocumentActive(s) ==>
      |st| >= 8 && st[..8] == "Editing " && st[8..] == s.activeDocument.name
  {
    if DocumentActive(s) then "Editing " + s.activeDocument.name else ""
  }

  /** The candidate icon key "file_" + Path.GetExtension(name).Remove(0, 1):
      it throws exactly when the extension is empty, and otherwise is "file_"
      followed by the extension without its dot. */
  function IconKey(name: string): (r: Outcome<string>)
    ensures r.Threw? <==> Extension(name) == ""
    ensures r.Returned? ==> r.value == "file_" + Extension(name)[1..]
  {
    match Remove(Extension(name), 0, 1)
    case Returned(e) => Returned("file_" + e)
    case Threw(x) => Threw(x)
  }

  /** rpc.smallImageKey: the candidate key when it was computed without an
      exception and is whitelisted, "" otherwise. */
  function SmallImageKey(s: Snapshot): (k: string)
    ensures k == "" || Listed(k, KnownNames)
    ensures k != "" <==>
      DocumentActive(s) && IconKey(s.activeDocument.name).Returned? &&
      Listed(IconKey(s.activeDocument.name).value, KnownNames)
    ensures k != "" ==> k == IconKey(s.activeDocument.name).value
  {
    if DocumentActive(s) then
      match IconKey(s.activeDocument.name)
      case Returned(key) => if Listed(key, KnownNames) then key else ""
      case Threw(_) => ""
    else ""
  }

  /** What every published record satisfies: the branding image, the session
      epoch, and an icon that is either absent or whitelisted and only shown
      next to an "Editing" line. */
  predicate Publishable(r: RichPresence, epoch: int) {
    r.largeImageKey == LargeImageKey &&
    r.startTimestamp == epoch &&
    (r.smallImageKey == "" || Listed(r.smallImageKey, KnownNames)) &&
    (r.smallImageKey != "" ==> r.state != "")
  }

  /** The record one cycle publishes for snapshot `s` in a session started at
      `epoch`.  It depends on nothing else: every field is rewritten each
      cycle, so nothing carries over from the previous record. */
  function Presence(s: Snapshot, epoch: int): (r: RichPresence)
    ensures Publishable(r, epoch)
  {
    RichPresence(Details(s), State(s), SmallImageKey(s), LargeImageKey, epoch)
  }

  /** A document without an extension (no '.' in its file name, or a '.' at
      its end) makes Remove(0, 1) throw; the "Editing" line, written before
      the throw, survives, and the catch leaves no icon. */
  lemma NoExtensionStillEditing(s: Snapshot)
    requires DocumentActive(s)
    requires var name := FileName(s.activeDocument.name);
      NoDotFrom(name, 0) || (name != [] && name[|name| - 1] == '.')
    ensures IconKey(s.activeDocument.name) == Threw(ArgumentOutOfRangeException)
    ensures State(s) == "Editing " + s.activeDocument.name
    ensures SmallImageKey(s) == ""
  {
    ExtensionIsFromLastDot(s.activeDocument.name);
  }

  /** A document with a non-empty extension ".ext" whose "file_ext" is
      whitelisted gets exactly that icon. */
  lemma {:induction false} KnownExtensionGetsIcon(s: Snapshot, ext: string)
    requires DocumentActive(s)
    requires Extension(s.activeDocument.name) == "." + ext && ext != ""
    requires Listed("file_" + ext, KnownNames)
    ensures SmallImageKey(s) == "file_" + ext
  {
    assert ("." + ext)[1..] == ext;
  }

  /** A lower-case letter, a digit or '_'. */
  predicate IsLowerKeyChar(c: char) {
    ('a' <= c <= 'z') || ('0' <= c <= '9') || c == '_'
  }

  /** Every whitelisted key is written in lower case. */
  lemma KnownNamesAreLowerCase()
    ensures forall j, i :: 0 <= j < |KnownNames| && 0 <= i < |KnownNames[j]| ==>
      IsLowerKeyChar(KnownNames[j][i])
  {
    FirstRowsAreLowerCase();
    LastRowsAreLowerCase();
  }

  /** The first half of the whitelist is written in lower case. */
  lemma FirstRowsAreLowerCase()
    ensures forall j, i :: 0 <= j < 18 && 0 <= i < |KnownNames[j]| ==> IsLowerKeyChar(KnownNames[j][i])
  {
  }

  /** The second half of the whitelist is written in lower case. */
  lemma LastRowsAreLowerCase()
    ensures forall j, i :: 18 <= j < 36 && 0 <= i < |KnownNames[j]| ==> IsLowerKeyChar(KnownNames[j][i])
  {
  }

  /** A key with an upper-case letter is not found in a list of keys written
      in lower case. */
  lemma {:induction false} UpperCaseKeyNotListed(k: string, i: nat, names: seq<string>)
    requires i < |k| && 'A' <= k[i] <= 'Z'
    requires forall j, m :: 0 <= j < |names| && 0 <= m < |names[j]| ==> IsLowerKeyChar(names[j][m])
    ensures !Listed(k, names)
    decreases |names|
  {
    if names != [] {
      if i < |names[0]| {
        assert IsLowerKeyChar(names[0][i]);
      }
      assert forall j :: 0 <= j < |names[1..]| ==> names[1..][j] == names[j + 1];
      UpperCaseKeyNotListed(k, i, names[1..]);
    }
  }

  /** No whitelisted key holds an upper-case letter. */
  lemma UpperCaseKeyIsUnknown(k: string, i: nat)
    requires i < |k| && 'A' <= k[i] <= 'Z'
    ensures !Listed(k, KnownNames)
  {
    KnownNamesAreLowerCase();
    UpperCaseKeyNotListed(k, i, KnownNames);
  }

  /** The candidate key repeats the extension after "file_": its character
      4 + j is the extension's character j. */
  lemma {:induction false} IconKeyCharAt(name: string, j: nat)
    requires 1 <= j < |Extension(name)|
    ensures IconKey(name).Returned? && IconKey(name).value[4 + j] == Extension(name)[j]
  {
    var ext := Extension(name);
    var kv := IconKey(name).value;
    assert kv[5..][j - 1] == ext[1..][j - 1];
  }

  /** A key "file_" + ext[1..] built from an extension holding an
      upper-case letter is not on the whitelist. */
  lemma {:induction false} UpperCaseKeyFromExtension(ext: string, key: string, j: nat)
    requires 1 <= j < |ext| && 'A' <= ext[j] <= 'Z'
    requires key == "file_" + ext[1..]
    ensures !Listed(key, KnownNames)
  {
    assert key[4 + j] == ext[1..][j - 1];
    UpperCaseKeyIsUnknown(key, 4 + j);
  }

  /** The whitelist match is exact: a document whose extension holds an
      upper-case letter (".CPP", ".Cs") never gets an icon, since the key is
      never lower-cased. */
  lemma {:induction false} UpperCaseExtensionGetsNoIcon(s: Snapshot, j: nat)
    requires DocumentActive(s)
    requires 1 <= j < |Extension(s.activeDocument.name)|
    requires 'A' <= Extension(s.activeDocument.name)[j] <= 'Z'
    ensures SmallImageKey(s) == ""
  {
    var name := s.activeDocument.name;
    UpperCaseKeyFromExtension(Extension(name), IconKey(name).value, j);
  }

  /** A solution file dir + stem + ".sln" reads "Working on " + stem
      (for instance "C:\\Projects\\Foo.sln" reads "Working on Foo"). */
  lemma WorkingOnSolution(s: Snapshot, dir: string, stem: string)
    requires SolutionOpen(s) && s.solution.value.fileName == dir + (stem + ".sln")
    requires dir == [] || IsSeparator(dir[|dir| - 1])
    requires HasNoSeparator(stem)
    ensures Details(s) == "Working on " + stem
  {
    PathRoundTrip(dir, stem, ".sln");
  }

  /** The C++ icon is whitelisted. */
  lemma CppKeyIsKnown()
    ensures Listed("file_cpp", KnownNames)
  {
  }

  /** ".cpp" is a dot and "cpp", whose key is "file_cpp". */
  lemma CppSpelling()
    ensures ".cpp" == "." + "cpp" && "file_" + "cpp" == "file_cpp"
  {
  }

  /** A document stem + ".cpp" (for instance "Bar.cpp") gets the C++ icon. */
  lemma EditingCppFile(s: Snapshot, stem: string)
    requires DocumentActive(s) && s.activeDocument.name == stem + ".cpp"
    requires HasNoSeparator(stem)
    ensures SmallImageKey(s) == "file_cpp"
  {
    ExtensionOfBareName(stem, ".cpp");
    CppSpelling();
    CppKeyIsKnown();
    KnownExtensionGetsIcon(s, "cpp");
  }

  /** A document stem + ".CPP" (for instance "Bar.CPP") gets no icon: the
      whitelist only holds "file_cpp". */
  lemma EditingUpperCaseCppFile(s: Snapshot, stem: string)
    requires DocumentActive(s) && s.activeDocument.name == stem + ".CPP"
    requires HasNoSeparator(stem)
    ensures SmallImageKey(s) == ""
  {
    ExtensionOfBareName(stem, ".CPP");
    UpperCaseExtensionGetsNoIcon(s, 1);
  }
}
