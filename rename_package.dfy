/** The package rename script: checks the new package name, derives the
    project name from it, rewrites both names in the project's text files and
    picks which files to rewrite. Reading and writing files works on a map
    from path to content. */
module RenamePackage {
  import opened Text
  import FileUtils

  const OldPackageName: string := "python_template"
  const OldProjectName: string := "python-template"

  // ---------------------------------------------------------------------
  // Names

  /** The names for which `keyword.iskeyword` is true. */
  const Keywords: set<string> := {
    "False", "None", "True", "and", "as", "assert", "async", "await", "break", "class",
    "continue", "def", "del", "elif", "else", "except", "finally", "for", "from", "global",
    "if", "import", "in", "is", "lambda", "nonlocal", "not", "or", "pass", "raise",
    "return", "try", "while", "with", "yield"
  }

  predicate IdentifierStart(c: char) {
    IsAsciiLetter(c) || c == '_'
  }

  predicate IdentifierChar(c: char) {
    IsAlnumChar(c) || c == '_'
  }

  /** `str.isidentifier()` over ASCII: a letter or underscore, then letters,
      digits and underscores. */
  predicate IsIdentifier(name: string) {
    name != [] && IdentifierStart(name[0]) && forall k :: 0 <= k < |name| ==> IdentifierChar(name[k])
  }

  /** `validate_package_name`: not empty, an identifier, and not a keyword. A
      valid name holds no hyphen, dot or space, so it can stand for both a
      directory and an import. */
  function ValidPackageName(name: string): (r: bool)
    ensures r <==> IsIdentifier(name) && name !in Keywords
    ensures r ==> !IsDigit(name[0])
    ensures r ==> forall k :: 0 <= k < |name| ==> name[k] != '-' && name[k] != '.' && name[k] != ' '
  {
    if name == [] then false
    else if !IsIdentifier(name) then false
    else if name in Keywords then false
    else true
  }

  /** `to_project_name`: every underscore becomes a hyphen. */
  function ToProjectName(packageName: string): (r: string)
    ensures |r| == |packageName|
    ensures forall k :: 0 <= k < |r| ==> r[k] == if packageName[k] == '_' then '-' else packageName[k]
    ensures '_' !in r
  {
    ReplaceChar(packageName, '_', '-');
    ReplaceAll(packageName, "_", "-")
  }

  /** A valid package name is recovered from its project name by turning the
      hyphens back into underscores. */
  lemma ProjectNameRoundTrip(name: string)
    requires ValidPackageName(name)
    ensures ReplaceAll(ToProjectName(name), "-", "_") == name
  {
    var project := ToProjectName(name);
    ReplaceChar(project, '-', '_');
    var back := ReplaceAll(project, "-", "_");
    assert forall k :: 0 <= k < |name| ==> back[k] == name[k];
  }

  /** The names the template ships with are a valid package name and its
      project name. */
  lemma OldNamesAgree()
    ensures ValidPackageName(OldPackageName)
    ensures ToProjectName(OldPackageName) == OldProjectName
  {
    var p := "python" + "_" + "template";
    assert p == OldPackageName && "python" + "-" + "template" == OldProjectName;
    assert IsIdentifier(p) by {
      forall k | 0 <= k < |p| ensures IdentifierChar(p[k]) {
      }
    }
    assert p !in Keywords by {
      assert p[0] == 'p' && |p| == 15;
    }
    ProjectOfJoined("python", "template");
  }

  lemma ProjectOfJoined(a: string, b: string)
    requires '_' !in a && '_' !in b
    ensures ToProjectName(a + "_" + b) == a + "-" + b
  {
    var p := a + "_" + b;
    var r := ToProjectName(p);
    var q := a + "-" + b;
    forall k | 0 <= k < |p| ensures r[k] == q[k] {
      if k < |a| {
        assert p[k] == a[k] && q[k] == a[k];
      } else if k > |a| {
        assert p[k] == b[k - |a| - 1] && q[k] == b[k - |a| - 1];
      }
    }
  }

  // ---------------------------------------------------------------------
  // Rewriting one file

  /** The package name replaced first, then the project name. */
  function RenamedText(content: string, oldPackage: string, newPackage: string,
                       oldProject: string, newProject: string): string
  {
    ReplaceAll(ReplaceAll(content, oldPackage, newPackage), oldProject, newProject)
  }

  /** What a path holds: text, or bytes that are not UTF-8. */
  datatype Content = Text(text: string) | Binary

  /** `update_file_content`: whether the file was rewritten, and the files
      afterwards. A missing file or an undecodable one is left alone. */
  function UpdateFileContent(files: map<string, Content>, path: string, oldPackage: string, newPackage: string,
                             oldProject: string, newProject: string): (r: (bool, map<string, Content>))
    ensures r.0 <==> path in files && files[path].Text? &&
                     RenamedText(files[path].text, oldPackage, newPackage, oldProject, newProject) != files[path].text
    ensures r.0 ==> r.1 == files[path := Text(RenamedText(files[path].text, oldPackage, newPackage, oldProject, newProject))]
    ensures !r.0 ==> r.1 == files
  {
    if path !in files || files[path].Binary? then (false, files)
    else
      var original := files[path].text;
      var content := RenamedText(original, oldPackage, newPackage, oldProject, newProject);
      if content != original then (true, files[path := Text(content)]) else (false, files)
  }

  /** Text holding neither old name is unchanged, so the files the script
      picks as holding an old name are the only ones it can rewrite. */
  lemma RenameAbsent(content: string, oldPackage: string, newPackage: string, oldProject: string, newProject: string)
    requires oldPackage != [] && oldProject != []
    requires !Contains(content, oldPackage) && !Contains(content, oldProject)
    ensures RenamedText(content, oldPackage, newPackage, oldProject, newProject) == content
  {
    ReplaceAbsent(content, oldPackage, newPackage);
    ReplaceAbsent(content, oldProject, newProject);
  }

  /** Renaming to the same names changes nothing. */
  lemma RenameToSelf(content: string, package: string, project: string)
    ensures RenamedText(content, package, package, project, project) == content
  {
    ReplaceSelf(content, package);
    ReplaceSelf(content, project);
  }

  /** A file the script would not pick is never reported as rewritten. */
  lemma UnpickedNotRewritten(files: map<string, Content>, path: string, newPackage: string)
    requires path in files && files[path].Text?
    requires !Contains(files[path].text, OldPackageName) && !Contains(files[path].text, OldProjectName)
    ensures UpdateFileContent(files, path, OldPackageName, newPackage, OldProjectName, ToProjectName(newPackage)) ==
            (false, files)
  {
    RenameAbsent(files[path].text, OldPackageName, newPackage, OldProjectName, ToProjectName(newPackage));
  }

  // ---------------------------------------------------------------------
  // Choosing the files

  const Extensions: set<string> := {".py", ".md", ".toml", ".yaml", ".yml", ".txt", ".rst", ".cfg", ".ini"}

  const ExcludeDirs: set<string> := {
    ".git", ".venv", "venv", "__pycache__", ".ruff_cache", ".pytest_cache", "node_modules", ".history", "logs"
  }

  const SpecialNames: set<string> := {"Makefile", "Dockerfile", ".gitignore", ".env.example"}

  /** An entry found by the recursive walk: its path components and whether
      it is a regular file. */
  datatype Entry = Entry(parts: seq<string>, isFile: bool)

  /** `Path.name`: the last component. */
  function Name(e: Entry): string {
    if e.parts == [] then "" else e.parts[|e.parts| - 1]
  }

  /** No component of the path is an excluded directory. */
  predicate OutsideExcluded(e: Entry) {
    forall k :: 0 <= k < |e.parts| ==> e.parts[k] !in ExcludeDirs
  }

  /** The test `get_files_to_update` applies to each entry. */
  predicate Selected(e: Entry) {
    OutsideExcluded(e) && e.isFile && (FileUtils.Suffix(Name(e)) in Extensions || Name(e) in SpecialNames)
  }

  /** The selected entries, in the order of the walk. */
  function FilesToUpdate(entries: seq<Entry>): (r: seq<Entry>)
    ensures |r| <= |entries|
    ensures forall e :: e in r ==> e in entries && Selected(e)
    ensures forall e :: e in entries && Selected(e) ==> e in r
  {
    if entries == [] then []
    else
      var last := entries[|entries| - 1];
      var init := entries[..|entries| - 1];
      assert entries == init + [last];
      FilesToUpdate(init) + (if Selected(last) then [last] else [])
  }

  /** `get_files_to_update` over the entries of the walk, in walk order. */
  method GetFilesToUpdate(entries: seq<Entry>) returns (files: seq<Entry>)
    ensures files == FilesToUpdate(entries)
  {
    files := [];
    var i := 0;
    while i < |entries|
      invariant 0 <= i <= |entries|
      invariant files == FilesToUpdate(entries[..i])
    {
      var item := entries[i];
      assert entries[..i + 1][..i] == entries[..i];
      if !OutsideExcluded(item) {
        i := i + 1;
        continue;
      }
      if item.isFile {
        var name := Name(item);
        if FileUtils.Suffix(name) in Extensions || name in SpecialNames {
          files := files + [item];
        }
      }
      i := i + 1;
    }
    assert entries[..i] == entries;
  }

  /** A file named by its suffix alone, such as `.py`, has no suffix: it is
      picked only by its name. */
  lemma HiddenNameHasNoSuffix(e: Entry)
    requires e.isFile && OutsideExcluded(e) && Name(e) == ".py"
    ensures !Selected(e)
  {
    assert FileUtils.RFindDot(".py") == 0;
  }
}
