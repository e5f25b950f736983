/** ExcelUtils' choice of a backend: an engine named by the caller must be one
    of the three adapters; with no name, the file's suffix picks the default
    engine (.xlsx: openpyxl, .xls: xlwings) and any other suffix is a KeyError
    of the lookup table. The suffix is that of pathlib: the final path
    component from its last dot on, provided the dot is neither the first nor
    the last character of the component. */
module ExcelEngine {
  import opened Wrappers

  datatype Engine = Openpyxl | Xlutils | Xlwings

  /** The name a caller passes for an engine. */
  function EngineName(e: Engine): (s: string)
    ensures s in {"openpyxl", "xlutils", "xlwings"}
  {
    match e
    case Openpyxl => "openpyxl"
    case Xlutils => "xlutils"
    case Xlwings => "xlwings"
  }

  /** The index of the last occurrence of `c` in `s`, or -1 (str.rfind). */
  function RFind(s: string, c: char): (i: int)
    ensures -1 <= i < |s|
    ensures i >= 0 ==> s[i] == c && forall j :: i < j < |s| ==> s[j] != c
    ensures i == -1 ==> forall j :: 0 <= j < |s| ==> s[j] != c
  {
    if s == [] then -1
    else if s[|s| - 1] == c then |s| - 1
    else RFind(s[..|s| - 1], c)
  }

  /** PurePosixPath.name: the last component of the path, where trailing
      separators and "." components do not count. */
  function Name(p: string): (n: string)
    ensures '/' !in n && n != "."
    decreases |p|
  {
    if p == [] then ""
    else if p[|p| - 1] == '/' then Name(p[..|p| - 1])
    else
      var i := RFind(p, '/');
      var comp := p[i + 1..];
      if comp != "." then comp
      else if i < 0 then ""
      else Name(p[..i + 1])
  }

  /** PurePath.suffix. */
  function Suffix(p: string): (s: string)
    ensures s == [] || (|s| >= 2 && s[0] == '.' && '.' !in s[1..])
    ensures s != [] ==> exists k :: 0 < k < |Name(p)| && s == Name(p)[k..]
  {
    var name := Name(p);
    var i := RFind(name, '.');
    if 0 < i < |name| - 1 then
      assert '.' !in name[i..][1..] by {
        forall j | 0 <= j < |name[i..][1..]| ensures name[i..][1..][j] != '.' {
          assert name[i..][1..][j] == name[i + 1 + j];
        }
      }
      name[i..]
    else ""
  }

  /** DEFAULT_ENGINE_DICT. */
  function DefaultEngine(suffix: string): Option<Engine> {
    if suffix == ".xlsx" then Some(Openpyxl)
    else if suffix == ".xls" then Some(Xlwings)
    else None
  }

  /** The engine ExcelUtils.__init__ loads the workbook with. */
  function ChooseEngine(path: string, engine: Option<string>): (r: Result<Engine, Exception>)
    ensures engine.Some? ==> (r.Ok? <==> engine.value in {"openpyxl", "xlutils", "xlwings"})
    ensures engine.Some? && r.Ok? ==> EngineName(r.value) == engine.value
    ensures engine.Some? && r.Err? ==> r.error == ValueError
    ensures engine.None? ==> (r.Ok? <==> Suffix(path) in {".xlsx", ".xls"})
    ensures engine.None? && r.Err? ==> r.error == KeyError
  {
    match engine
    case Some(name) =>
      if name == "openpyxl" then Ok(Openpyxl)
      else if name == "xlutils" then Ok(Xlutils)
      else if name == "xlwings" then Ok(Xlwings)
      else Err(ValueError)
    case None =>
      match DefaultEngine(Suffix(path))
      case Some(e) => Ok(e)
      case None => Err(KeyError)
  }

  /** Naming an engine selects it, whatever the path. */
  lemma NamedEngineIsChosen(path: string, e: Engine)
    ensures ChooseEngine(path, Some(EngineName(e))) == Ok(e)
  {
  }

  /** The engine chosen by default is the one that naming it explicitly would
      choose, and it is never xlutils. */
  lemma DefaultIsANamedEngine(path: string)
    requires ChooseEngine(path, None).Ok?
    ensures ChooseEngine(path, None).value != Xlutils
    ensures ChooseEngine(path, Some(EngineName(ChooseEngine(path, None).value))) == ChooseEngine(path, None)
  {
  }

  /** Characters other than `c` appended to a string do not move its last `c`. */
  lemma {:induction false} RFindSkips(s: string, t: string, c: char)
    requires c !in t
    ensures RFind(s + t, c) == RFind(s, c)
    decreases |t|
  {
    if t != [] {
      var u := t[..|t| - 1];
      assert (s + t)[..|s + t| - 1] == s + u;
      assert c !in u by {
        forall j | 0 <= j < |u| ensures u[j] != c {
          assert u[j] == t[j];
        }
      }
      RFindSkips(s, u, c);
    } else {
      assert s + t == s;
    }
  }

  /** A component without separators is its own name, with or without a
      directory in front and a trailing separator behind. */
  lemma NameOfComponent(dir: string, name: string)
    requires name != [] && name != "." && '/' !in name
    ensures Name(name) == name
    ensures Name(dir + "/" + name) == name
    ensures Name(dir + "/" + name + "/") == name
  {
    NameOfBareComponent(name);
    NameAfterDirectory(dir, name);
    var path := dir + "/" + name;
    assert (path + "/")[..|path + "/"| - 1] == path;
  }

  lemma NameOfBareComponent(name: string)
    requires name != [] && name != "." && '/' !in name
    ensures Name(name) == name
  {
    RFindSkips([], name, '/');
    assert [] + name == name;
    assert name[RFind(name, '/') + 1..] == name;
  }

  lemma NameAfterDirectory(dir: string, name: string)
    requires name != [] && name != "." && '/' !in name
    ensures Name(dir + "/" + name) == name
  {
    var path := dir + "/" + name;
    RFindSkips(dir + "/", name, '/');
    assert RFind(dir + "/", '/') == |dir|;
    assert path[|dir| + 1..] == name;
  }

  /** The suffix of a component `stem.ext` is ".ext", wherever the stem has
      dots of its own. */
  lemma SuffixOfComponent(p: string, stem: string, ext: string)
    requires stem != [] && ext != [] && '.' !in ext
    requires Name(p) == stem + "." + ext
    ensures Suffix(p) == "." + ext
  {
    var name := stem + "." + ext;
    RFindSkips(stem + ".", ext, '.');
    assert RFind(stem + ".", '.') == |stem|;
    assert name[|stem|..] == "." + ext;
  }

  /** Separators in neither part leave none in `stem.ext`. */
  lemma NoSeparatorIn(stem: string, ext: string)
    requires '/' !in stem && '/' !in ext
    ensures '/' !in stem + "." + ext
  {
    var name := stem + "." + ext;
    forall j | 0 <= j < |name| ensures name[j] != '/' {
      if j < |stem| { assert name[j] == stem[j]; }
      else if j > |stem| { assert name[j] == ext[j - |stem| - 1]; }
    }
  }

  /** A final component `stem.ext`, with or without a directory in front and
      with or without a trailing separator, has the suffix ".ext": the stem
      may itself contain dots, only the last one counts. */
  lemma SuffixOfFile(dir: string, stem: string, ext: string)
    requires stem != [] && ext != []
    requires '/' !in stem && '/' !in ext && '.' !in ext
    ensures Suffix(stem + "." + ext) == "." + ext
    ensures Suffix(dir + "/" + (stem + "." + ext)) == "." + ext
    ensures Suffix(dir + "/" + (stem + "." + ext) + "/") == "." + ext
  {
    var name := stem + "." + ext;
    NoSeparatorIn(stem, ext);
    NameOfComponent(dir, name);
    SuffixOfComponent(name, stem, ext);
    SuffixOfComponent(dir + "/" + name, stem, ext);
    SuffixOfComponent(dir + "/" + name + "/", stem, ext);
  }

  /** A final component made of a dot and an extension only, like ".xlsx",
      is a hidden file without a suffix, so no default engine is found. */
  lemma HiddenFileHasNoSuffix(dir: string, ext: string)
    requires ext != [] && '/' !in ext && '.' !in ext
    ensures Suffix(dir + "/" + ("." + ext)) == ""
    ensures ChooseEngine(dir + "/" + ("." + ext), None) == Err(KeyError)
  {
    var name := "." + ext;
    assert '/' !in name by {
      forall j | 0 <= j < |name| ensures name[j] != '/' {
        if j > 0 { assert name[j] == ext[j - 1]; }
      }
    }
    NameOfComponent(dir, name);
    RFindSkips(".", ext, '.');
    assert RFind(".", '.') == 0;
  }

  /** With no engine named, a workbook `stem.xlsx` opens with openpyxl, a
      workbook `stem.xls` with xlwings, and any other extension is a lookup
      error. */
  lemma DefaultEngineOfFile(dir: string, stem: string, ext: string)
    requires stem != [] && ext != []
    requires '/' !in stem && '/' !in ext && '.' !in ext
    ensures ChooseEngine(dir + "/" + (stem + "." + ext), None)
         == if ext == "xlsx" then Ok(Openpyxl)
            else if ext == "xls" then Ok(Xlwings)
            else Err(KeyError)
  {
    SuffixOfFile(dir, stem, ext);
    ChooseBySuffix(dir + "/" + (stem + "." + ext), ext);
  }

  /** The default lookup reads only the suffix ".ext": the two known
      extensions pick their engine, anything else is a KeyError. */
  lemma ChooseBySuffix(path: string, ext: string)
    requires Suffix(path) == "." + ext
    ensures ChooseEngine(path, None)
         == if ext == "xlsx" then Ok(Openpyxl)
            else if ext == "xls" then Ok(Xlwings)
            else Err(KeyError)
  {
    assert ("." + ext == ".xlsx") == (ext == "xlsx") by {
      if "." + ext == ".xlsx" { assert ext == ("." + ext)[1..]; }
    }
    assert ("." + ext == ".xls") == (ext == "xls") by {
      if "." + ext == ".xls" { assert ext == ("." + ext)[1..]; }
    }
  }
}
