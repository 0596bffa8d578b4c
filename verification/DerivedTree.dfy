/** The derived CPython source tree: a copy of the pristine tree with two project files
    edited and the pinned Expat vendored in, built so that it can be built again over
    itself.  File contents are sequences of characters below 256 standing for bytes. */
module DerivedTree {
  import opened Options
  import opened Search

  datatype Path = Path(dir: string, name: string)
  type Bytes = string
  type Tree = map<Path, Bytes>

  /** `bytes.replace(b"\r\n", b"\n")` */
  function Unix(s: Bytes): Bytes
  {
    if |s| < 2 then s
    else if s[0] == '\r' && s[1] == '\n' then "\n" + Unix(s[2..])
    else [s[0]] + Unix(s[1..])
  }

  lemma NoPairBehind(s: Bytes)
    requires s != "" && !Has(s, "\r\n")
    ensures !Has(s[1..], "\r\n") && !(|s| >= 2 && s[0] == '\r' && s[1] == '\n')
  {
    hide Find, OccursAt;
    var i := Find(s[1..], "\r\n", 0);
    assert s == [s[0]] + s[1..];
    OccursShifted([s[0]], s[1..], "\r\n", if i < 0 then 0 else i);
    PairInFront(s);
  }

  lemma PairInFront(s: Bytes)
    ensures |s| >= 2 && s[0] == '\r' && s[1] == '\n' ==> OccursAt(s, "\r\n", 0)
  {
  }

  /** Text without a pair is left alone. */
  lemma {:induction false} UnixPlain(s: Bytes)
    requires !Has(s, "\r\n")
    ensures Unix(s) == s
  {
    hide Has;
    if |s| >= 2 {
      NoPairBehind(s);
      UnixPlain(s[1..]);
    }
  }

  /** Each pair becomes a newline. */
  lemma {:induction false} UnixPair(a: Bytes, c: Bytes)
    requires !Has(a, "\r\n")
    ensures Unix(a + "\r\n" + c) == a + "\n" + Unix(c)
  {
    hide Has;
    var s := a + "\r\n" + c;
    if a == "" {
      assert s == "\r\n" + c && s[2..] == c;
    } else {
      NoPairBehind(a);
      assert s[1..] == a[1..] + "\r\n" + c;
      UnixPair(a[1..], c);
    }
  }

  function WithoutReturns(s: Bytes): Bytes
  {
    if s == "" then "" else (if s[0] == '\r' then "" else [s[0]]) + WithoutReturns(s[1..])
  }

  /** Nothing but carriage returns is ever lost. */
  lemma {:induction false} UnixKeepsText(s: Bytes)
    ensures WithoutReturns(Unix(s)) == WithoutReturns(s)
  {
    if |s| >= 2 {
      if s[0] == '\r' && s[1] == '\n' {
        UnixKeepsText(s[2..]);
        assert s[1..][1..] == s[2..];
        assert ("\n" + Unix(s[2..]))[1..] == Unix(s[2..]);
      } else {
        UnixKeepsText(s[1..]);
        assert ([s[0]] + Unix(s[1..]))[1..] == Unix(s[1..]);
      }
    }
  }

  predicate HasSuffix(name: string, suffix: string) { |name| > |suffix| && EndsWith(name, suffix) }

  predicate SourceText(p: Path)
  {
    HasSuffix(p.name, ".c") || HasSuffix(p.name, ".h") || HasSuffix(p.name, ".py")
  }

  // ---- The project edit ----

  const PROJECTS := [Path("PCbuild", "pyexpat.vcxproj"), Path("PCbuild", "_elementtree.vcxproj")]

  function Newline(original: Bytes): Bytes { if Has(original, "\r\n") then "\r\n" else "\n" }
  function Compile(file: string, newline: Bytes): Bytes
  {
    "    <ClCompile Include=\"..\\Modules\\expat\\" + file + "\" />" + newline
  }

  const ENTROPY := "random_rand_s.c"

  /** `_expat_windows_project` */
  function ExpatProject(original: Bytes): Option<Bytes>
  {
    var newline := Newline(original);
    var anchor := Compile("xcs.c", newline);
    if Count(original, anchor) != 1 || Has(original, ENTROPY) then None
    else Some(ReplaceFirst(original, anchor, anchor + Compile(ENTROPY, newline)))
  }

  /** The edit adds one line behind the anchor and nothing else, and an edited project is
      refused: the edit is never made twice. */
  lemma ProjectEditedOnce(original: Bytes) returns (before: Bytes, after: Bytes)
    requires ExpatProject(original).Some?
    ensures original == before + after && EndsWith(before, Compile("xcs.c", Newline(original)))
    ensures ExpatProject(original).value == before + Compile(ENTROPY, Newline(original)) + after
    ensures Newline(original) == if Has(original, "\r\n") then "\r\n" else "\n"
    ensures ExpatProject(ExpatProject(original).value) == None
  {
    hide Find;
    var newline := Newline(original);
    var anchor, line := Compile("xcs.c", newline), Compile(ENTROPY, newline);
    var i := Find(original, anchor, 0);
    MatchesStartAtFind(original, anchor);
    before, after := original[..i] + anchor, original[i + |anchor|..];
    assert EndsWith(before, anchor);
    var edited := before + line + after;
    assert original[..i] + (anchor + line) + after == edited;
    CompileHasFile(ENTROPY, newline);
    var k :| OccursAt(line, ENTROPY, k);
    OccursInContext(before, line, after, ENTROPY, k);
    assert Has(edited, ENTROPY);
  }

  lemma MatchesStartAtFind(s: Bytes, pat: Bytes)
    requires pat != [] && Count(s, pat) == 1
    ensures Find(s, pat, 0) >= 0
  {
  }

  lemma CompileHasFile(file: string, newline: Bytes)
    ensures Has(Compile(file, newline), file)
  {
    var head, tail := "    <ClCompile Include=\"..\\Modules\\expat\\", "\" />" + newline;
    assert OccursAt(file, file, 0);
    OccursInContext(head, file, tail, file, 0);
    assert head + file + tail == Compile(file, newline);
  }

  /** The edited projects, or nothing if either cannot be edited. */
  function Edits(pristine: Tree): Option<Tree>
  {
    if exists i :: 0 <= i < 2 && (PROJECTS[i] !in pristine || ExpatProject(pristine[PROJECTS[i]]).None?) then None
    else Some(map[PROJECTS[0] := ExpatProject(pristine[PROJECTS[0]]).value,
                  PROJECTS[1] := ExpatProject(pristine[PROJECTS[1]]).value])
  }

  // ---- Copying, or checking an earlier copy ----

  /** What is vendored: the library files by name, the licence, and how text is read and
      written on the building host. */
  datatype Expat = Expat(
    names: seq<string>, lib: map<string, Bytes>, licence: Bytes,
    read: Bytes -> Option<string>, write: string -> Bytes)
  {
    predicate Valid() { EXTERNAL in names && LICENCE !in names }
    predicate Vendors(p: Path) { p.dir == EXPAT_DIR && (p.name in names || p.name == LICENCE) }
  }

  const EXPAT_DIR := "Modules/expat"
  const EXTERNAL := "expat_external.h"
  const LICENCE := "COPYING"

  predicate SameWindowsText(p: Path, expected: Bytes, actual: Bytes)
  {
    SourceText(p) && Unix(actual) == Unix(expected)
  }

  predicate Accepts(e: Expat, pristine: Tree, derived: Tree, p: Path)
    requires p in pristine
  {
    p in derived &&
    (e.Vendors(p) ||
     if p in PROJECTS then
       ExpatProject(pristine[p]).Some? &&
       (derived[p] == pristine[p] || Some(derived[p]) == ExpatProject(pristine[p]))
     else
       derived[p] == pristine[p] || SameWindowsText(p, pristine[p], derived[p]))
  }

  ghost predicate AcceptsAll(e: Expat, pristine: Tree, derived: Tree)
  {
    forall p :: p in pristine ==> Accepts(e, pristine, derived, p)
  }

  /** `copy_source_tree` */
  ghost function CopySourceTree(e: Expat, pristine: Tree, derived: Option<Tree>): Option<Tree>
  {
    if derived.Some? && !AcceptsAll(e, pristine, derived.value) then None
    else if Edits(pristine).None? then None
    else Some((if derived.Some? then derived.value else pristine) + Edits(pristine).value)
  }

  // ---- Vendoring Expat ----

  const INCLUDE := "#include \"pyexpatns.h\""
  const GUARD := "#ifndef Expat_External_INCLUDED\n#  define Expat_External_INCLUDED 1\n"
  const NAMESPACE := "/* Namespace external symbols to allow multiple libexpat version to\n   co-exist. */\n"
  const API := "\n/* External API definitions */"

  /** The bytes that `expat_external.h` ends up with. */
  function PatchExternal(e: Expat, data: Bytes): Option<Bytes>
  {
    var text := e.read(data);
    if text.None? then None
    else if !Has(text.value, INCLUDE) then
      if Count(text.value, GUARD + API) != 1 then None
      else Some(e.write(ReplaceFirst(text.value, GUARD + API, GUARD + NAMESPACE + INCLUDE + "\n" + API)))
    else if Count(text.value, INCLUDE) != 1 || Count(text.value, NAMESPACE + INCLUDE) != 1 then None
    else Some(data)
  }

  function NameSet(names: seq<string>): set<string> { set n | n in names }

  function Library(e: Expat): (t: Tree)
    ensures forall p :: p in t <==> p.dir == EXPAT_DIR && p.name in e.lib
    ensures forall p :: p in t ==> t[p] == e.lib[p.name]
  {
    assert forall p: Path :: p == Path(p.dir, p.name);
    map n | n in e.lib :: Path(EXPAT_DIR, n) := e.lib[n]
  }

  /** Every file vendoring writes, as it finally stands. */
  function Vendored(e: Expat): Option<Tree>
    requires e.Valid()
  {
    if e.lib.Keys != NameSet(e.names) then None
    else
      assert EXTERNAL in e.lib;
      var patched := PatchExternal(e, e.lib[EXTERNAL]);
      if patched.None? then None
      else Some(Library(e)[Path(EXPAT_DIR, LICENCE) := e.licence][Path(EXPAT_DIR, EXTERNAL) := patched.value])
  }

  const RETAINED := {Path(EXPAT_DIR, "expat_config.h"), Path(EXPAT_DIR, "pyexpatns.h")}

  /** `vendor_expat` */
  function VendorExpat(e: Expat, tree: Tree): Option<Tree>
    requires e.Valid()
  {
    if Vendored(e).None? || !(RETAINED <= (tree + Vendored(e).value).Keys) then None
    else Some(tree + Vendored(e).value)
  }

  ghost function Build(e: Expat, pristine: Tree, derived: Option<Tree>): Option<Tree>
    requires e.Valid()
  {
    var copied := CopySourceTree(e, pristine, derived);
    if copied.None? then None else VendorExpat(e, copied.value)
  }

  // ---- The tree on disk ----

  class Disk {
    var files: Option<Tree>

    /** Every original is checked before anything is written. */
    method CopySource(e: Expat, pristine: Tree, listing: seq<Path>) returns (ok: bool)
      requires forall p :: p in listing <==> p in pristine
      modifies this
      ensures ok <==> CopySourceTree(e, pristine, old(files)).Some?
      ensures ok ==> files == CopySourceTree(e, pristine, old(files))
      ensures old(files).Some? && !AcceptsAll(e, pristine, old(files).value) ==> files == old(files)
      ensures files.Some?
      ensures var base := if old(files).Some? then old(files).value else pristine;
              forall p :: p !in PROJECTS ==>
                (p in files.value <==> p in base) && (p in base ==> files.value[p] == base[p])
    {
      hide ExpatProject, SameWindowsText;
      if files.None? {
        files := Some(pristine);
      } else {
        for i := 0 to |listing|
          invariant files == old(files)
          invariant forall j :: 0 <= j < i ==> Accepts(e, pristine, files.value, listing[j])
        {
          assert listing[i] in pristine;
          if !Accepts(e, pristine, files.value, listing[i]) { return false; }
        }
        forall p | p in pristine ensures Accepts(e, pristine, files.value, p) { assert p in listing; }
      }
      ok := WriteProjects(pristine);
    }

    method WriteProjects(pristine: Tree) returns (ok: bool)
      requires files.Some?
      modifies this
      ensures ok <==> Edits(pristine).Some?
      ensures ok ==> files == Some(old(files).value + Edits(pristine).value)
      ensures files.Some? && forall p :: p !in PROJECTS ==>
                && (p in files.value <==> p in old(files).value)
                && (p in files.value ==> files.value[p] == old(files).value[p])
    {
      hide ExpatProject;
      for i := 0 to 2
        invariant files.Some?
        invariant forall j :: 0 <= j < i ==> PROJECTS[j] in pristine && ExpatProject(pristine[PROJECTS[j]]).Some?
        invariant i == 0 ==> files == old(files)
        invariant i == 1 ==> files.value == old(files).value[PROJECTS[0] := ExpatProject(pristine[PROJECTS[0]]).value]
        invariant i == 2 ==> files.value == old(files).value + Edits(pristine).value
      {
        if PROJECTS[i] !in pristine { return false; }
        var edited := ExpatProject(pristine[PROJECTS[i]]);
        if edited.None? { return false; }
        files := Some(files.value[PROJECTS[i] := edited.value]);
      }
      return true;
    }

    method Vendor(e: Expat) returns (ok: bool)
      requires e.Valid() && files.Some?
      modifies this
      ensures ok <==> VendorExpat(e, old(files).value).Some?
      ensures ok ==> files == VendorExpat(e, old(files).value)
      ensures files.Some? && forall p :: !e.Vendors(p) ==>
                && (p in files.value <==> p in old(files).value)
                && (p in files.value ==> files.value[p] == old(files).value[p])
    {
      hide PatchExternal, Library;
      if e.lib.Keys != NameSet(e.names) { return false; }
      ghost var before := files.value;
      var written := WriteLibrary(e, files.value);
      files := Some(written[Path(EXPAT_DIR, LICENCE) := e.licence]);
      assert EXTERNAL in e.lib;
      var patched := PatchExternal(e, e.lib[EXTERNAL]);
      if patched.None? { return false; }
      files := Some(files.value[Path(EXPAT_DIR, EXTERNAL) := patched.value]);
      assert files.value == before + Vendored(e).value;
      return RETAINED <= files.value.Keys;
    }
  }

  method WriteLibrary(e: Expat, tree: Tree) returns (written: Tree)
    requires e.lib.Keys == NameSet(e.names)
    ensures written == tree + Library(e)
  {
    hide Library;
    written := tree;
    for i := 0 to |e.names|
      invariant forall p :: p in written <==> p in tree || (p.dir == EXPAT_DIR && p.name in e.names[..i])
      invariant forall p :: p in written && p.dir == EXPAT_DIR && p.name in e.names[..i] ==> written[p] == e.lib[p.name]
      invariant forall p :: p in tree && !(p.dir == EXPAT_DIR && p.name in e.names[..i]) ==> written[p] == tree[p]
    {
      var n := e.names[i];
      assert n in e.lib;
      forall m ensures m in e.names[..i + 1] <==> m in e.names[..i] || m == n {
        assert e.names[..i + 1] == e.names[..i] + [n];
      }
      written := written[Path(EXPAT_DIR, n) := e.lib[n]];
    }
    assert e.names[..|e.names|] == e.names;
  }

  // ---- Building again ----

  lemma EditsKeys(pristine: Tree)
    requires Edits(pristine).Some?
    ensures Edits(pristine).value.Keys == {PROJECTS[0], PROJECTS[1]}
    ensures forall p :: p in PROJECTS ==>
              p in pristine && ExpatProject(pristine[p]) == Some(Edits(pristine).value[p])
  {
    hide ExpatProject;
    forall i | 0 <= i < 2 ensures PROJECTS[i] in pristine && ExpatProject(pristine[PROJECTS[i]]).Some? {}
    assert forall p :: p in PROJECTS ==> p == PROJECTS[0] || p == PROJECTS[1];
  }

  lemma VendoredKeys(e: Expat)
    requires e.Valid() && Vendored(e).Some?
    ensures forall p :: p in Vendored(e).value <==> e.Vendors(p)
  {
    hide PatchExternal, Library;
    forall p ensures p in Library(e) <==> p.dir == EXPAT_DIR && p.name in e.names {}
  }

  /** The vendored bytes are upstream's own, but for the one header; and that is upstream's
      too, if it has the namespace include already, or upstream's text with the include put
      between its guard and its declarations. */
  lemma VendoredBytes(e: Expat) returns (before: string, after: string)
    requires e.Valid() && Vendored(e).Some?
    ensures EXTERNAL in e.lib && e.read(e.lib[EXTERNAL]).Some?
    ensures var files := Vendored(e).value;
            var text := e.read(e.lib[EXTERNAL]).value;
            && (forall n :: n in e.names && n != EXTERNAL ==>
                  Path(EXPAT_DIR, n) in files && n in e.lib && files[Path(EXPAT_DIR, n)] == e.lib[n])
            && Path(EXPAT_DIR, LICENCE) in files && files[Path(EXPAT_DIR, LICENCE)] == e.licence
            && Path(EXPAT_DIR, EXTERNAL) in files
            && (Has(text, INCLUDE) ==> files[Path(EXPAT_DIR, EXTERNAL)] == e.lib[EXTERNAL])
            && (!Has(text, INCLUDE) ==>
                  && text == before + after && EndsWith(before, GUARD) && StartsWith(after, API)
                  && files[Path(EXPAT_DIR, EXTERNAL)] == e.write(before + (NAMESPACE + INCLUDE + "\n") + after))
  {
    hide Library, Matches, Find;
    var text := e.read(e.lib[EXTERNAL]).value;
    before, after := "", "";
    if !Has(text, INCLUDE) { before, after := IncludeInserted(text); }
  }

  lemma IncludeInserted(text: string) returns (before: string, after: string)
    requires Count(text, GUARD + API) == 1
    ensures text == before + after && EndsWith(before, GUARD) && StartsWith(after, API)
    ensures ReplaceFirst(text, GUARD + API, GUARD + NAMESPACE + INCLUDE + "\n" + API)
         == before + (NAMESPACE + INCLUDE + "\n") + after
  {
    hide Find;
    before, after := CutAtAnchor(text, GUARD, API, NAMESPACE + INCLUDE + "\n");
    assert GUARD + NAMESPACE + INCLUDE + "\n" + API == GUARD + (NAMESPACE + INCLUDE + "\n") + API;
  }

  /** Replacing `head + tail` by `head + middle + tail` puts `middle` in between. */
  lemma CutAtAnchor(text: string, head: string, tail: string, middle: string) returns (before: string, after: string)
    requires head + tail != "" && Count(text, head + tail) == 1
    ensures text == before + after && EndsWith(before, head) && StartsWith(after, tail)
    ensures ReplaceFirst(text, head + tail, head + middle + tail) == before + middle + after
  {
    hide Find;
    MatchesStartAtFind(text, head + tail);
    var i := Find(text, head + tail, 0);
    var rest := text[i + |head + tail|..];
    before, after := text[..i] + head, tail + rest;
    assert text == text[..i] + text[i..i + |head + tail|] + rest;
    assert text == text[..i] + (head + tail) + rest == before + after;
    assert text[..i] + (head + middle + tail) + rest == before + middle + after;
  }

  lemma ProjectsAreNotVendored(e: Expat, p: Path)
    requires p in PROJECTS
    ensures !e.Vendors(p)
  {
    assert p.dir == "PCbuild";
    assert |"PCbuild"| == 7 && |EXPAT_DIR| == 13;
  }

  /** The result, file by file: what was vendored, the edited projects, and everything else
      as the copy had it; nothing the copy had is lost. */
  lemma BuiltFiles(e: Expat, pristine: Tree, derived: Option<Tree>)
    requires e.Valid() && Build(e, pristine, derived).Some?
    ensures Vendored(e).Some? && Edits(pristine).Some?
    ensures var out, base := Build(e, pristine, derived).value, if derived.Some? then derived.value else pristine;
            && (forall p :: p in out <==> p in base || e.Vendors(p) || p in PROJECTS)
            && (forall p :: e.Vendors(p) ==> p in Vendored(e).value && out[p] == Vendored(e).value[p])
            && (forall p :: p in PROJECTS ==> p in pristine && Some(out[p]) == ExpatProject(pristine[p]))
            && (forall p :: p in base && !e.Vendors(p) && p !in PROJECTS ==> out[p] == base[p])
  {
    hide ExpatProject, Vendored, Edits, AcceptsAll;
    VendoredKeys(e);
    EditsKeys(pristine);
    forall p | p in PROJECTS ensures !e.Vendors(p) { ProjectsAreNotVendored(e, p); }
  }

  /** The header has its namespace include once, or exactly one place to put it. */
  ghost predicate HeaderReady(e: Expat)
  {
    EXTERNAL in e.lib && e.read(e.lib[EXTERNAL]).Some? &&
    var text := e.read(e.lib[EXTERNAL]).value;
    if Has(text, INCLUDE) then Count(text, INCLUDE) == 1 && Count(text, NAMESPACE + INCLUDE) == 1
    else Count(text, GUARD + API) == 1
  }

  /** Exactly when a build succeeds: an earlier copy is acceptable, both projects have one
      anchor and no entropy source yet, upstream has the expected files and a header that can
      be patched, and the two retained headers are there. */
  lemma BuildSucceedsExactly(e: Expat, pristine: Tree, derived: Option<Tree>)
    requires e.Valid()
    ensures Build(e, pristine, derived).Some? <==>
            && (derived.Some? ==> AcceptsAll(e, pristine, derived.value))
            && (forall p :: p in PROJECTS ==>
                  p in pristine && !Has(pristine[p], ENTROPY)
                  && Count(pristine[p], Compile("xcs.c", Newline(pristine[p]))) == 1)
            && e.lib.Keys == NameSet(e.names) && HeaderReady(e)
            && (forall name :: name in {"expat_config.h", "pyexpatns.h"} ==>
                  || e.Vendors(Path("Modules/expat", name)) || Path("Modules/expat", name) in PROJECTS
                  || Path("Modules/expat", name) in if derived.Some? then derived.value else pristine)
  {
    hide Count, Has, Compile, Newline, AcceptsAll, Library;
    assert RETAINED == set name | name in {"expat_config.h", "pyexpatns.h"} :: Path("Modules/expat", name);
    assert PROJECTS[0] in PROJECTS && PROJECTS[1] in PROJECTS;
    EditsExactly(pristine);
    VendoredExactly(e);
    if Edits(pristine).Some? { EditsKeys(pristine); }
    if Vendored(e).Some? { VendoredKeys(e); }
  }

  lemma EditsExactly(pristine: Tree)
    ensures Edits(pristine).Some? <==>
            forall p :: p in PROJECTS ==>
              p in pristine && !Has(pristine[p], ENTROPY)
              && Count(pristine[p], Compile("xcs.c", Newline(pristine[p]))) == 1
  {
    hide Count, Has, Newline;
    assert PROJECTS[0] in PROJECTS && PROJECTS[1] in PROJECTS;
    assert forall p :: p in PROJECTS ==> p == PROJECTS[0] || p == PROJECTS[1];
  }

  lemma VendoredExactly(e: Expat)
    requires e.Valid()
    ensures Vendored(e).Some? <==> e.lib.Keys == NameSet(e.names) && HeaderReady(e)
  {
    hide Count, Has, Library;
  }

  /** Success means the derived tree agrees with the pristine one on every original file but
      the vendored ones, the two edited projects, and line endings of source text. */
  lemma BuiltAgrees(e: Expat, pristine: Tree, derived: Option<Tree>)
    requires e.Valid() && Build(e, pristine, derived).Some?
    ensures var out := Build(e, pristine, derived).value;
            forall p :: p in pristine ==>
              p in out &&
              (e.Vendors(p) || (p in PROJECTS && Some(out[p]) == ExpatProject(pristine[p]))
               || out[p] == pristine[p] || SameWindowsText(p, pristine[p], out[p]))
    ensures var out := Build(e, pristine, derived).value;
            forall p :: p in pristine && !e.Vendors(p) && p !in PROJECTS && out[p] != pristine[p] ==>
              InSource(p) && WithoutReturns(out[p]) == WithoutReturns(pristine[p])
  {
    hide ExpatProject, Vendored, Edits, SameWindowsText;
    BuiltFiles(e, pristine, derived);
    var out := Build(e, pristine, derived).value;
    forall p | p in pristine && SameWindowsText(p, pristine[p], out[p])
      ensures InSource(p) && WithoutReturns(out[p]) == WithoutReturns(pristine[p])
    {
      SameTextMeans(p, pristine[p], out[p]);
    }
  }

  ghost predicate Ending(name: string, suffix: string) { exists stem :: stem != "" && name == stem + suffix }

  /** A source file in C or Python, by its name. */
  ghost predicate InSource(p: Path) { Ending(p.name, ".c") || Ending(p.name, ".h") || Ending(p.name, ".py") }

  lemma EndingExactly(name: string, suffix: string)
    ensures HasSuffix(name, suffix) <==> Ending(name, suffix)
  {
    if HasSuffix(name, suffix) { assert name == name[..|name| - |suffix|] + suffix; }
    if stem :| stem != "" && name == stem + suffix { assert name[|stem|..] == suffix; }
  }

  lemma SourceExactly(p: Path)
    ensures SourceText(p) <==> InSource(p)
  {
    hide HasSuffix, Ending;
    EndingExactly(p.name, ".c");
    EndingExactly(p.name, ".h");
    EndingExactly(p.name, ".py");
  }

  lemma SameTextMeans(p: Path, expected: Bytes, actual: Bytes)
    requires SameWindowsText(p, expected, actual)
    ensures InSource(p) && WithoutReturns(actual) == WithoutReturns(expected)
  {
    SourceExactly(p);
    UnixKeepsText(expected);
    UnixKeepsText(actual);
  }

  /** What may happen to an original file between two builds: a vendored file may change at
      will, a project may be put back, and generators may rewrite line endings. */
  ghost predicate Untampered(e: Expat, pristine: Tree, out: Tree, altered: Tree, p: Path)
    requires p in pristine
  {
    p in out && p in altered ==>
      || e.Vendors(p) || altered[p] == out[p]
      || (if p in PROJECTS then altered[p] == pristine[p] else SameWindowsText(p, pristine[p], altered[p]))
  }

  /** Building over a tree that was built and then compiled in succeeds: every generated file
      and every rewritten line ending is kept, the vendored files and the projects are as the
      first build left them. */
  lemma BuildAgain(e: Expat, pristine: Tree, derived: Option<Tree>, altered: Tree)
    requires e.Valid() && Build(e, pristine, derived).Some?
    requires Build(e, pristine, derived).value.Keys <= altered.Keys
    requires forall p :: p in pristine ==> Untampered(e, pristine, Build(e, pristine, derived).value, altered, p)
    ensures var out, again := Build(e, pristine, derived).value, Build(e, pristine, Some(altered));
            && again.Some? && again.value.Keys == altered.Keys
            && (forall p :: p in altered && (e.Vendors(p) || p in PROJECTS) ==> p in out && again.value[p] == out[p])
            && (forall p :: p in altered && !e.Vendors(p) && p !in PROJECTS ==> again.value[p] == altered[p])
  {
    hide ExpatProject, Vendored, Edits, SameWindowsText, Build;
    var out := Build(e, pristine, derived).value;
    BuiltFiles(e, pristine, derived);
    BuiltAgrees(e, pristine, derived);
    assert pristine.Keys <= out.Keys;
    AlteredAccepted(e, pristine, out, altered);
    SecondBuild(e, pristine, derived, altered);
    BuiltFiles(e, pristine, Some(altered));
  }

  lemma AlteredAccepted(e: Expat, pristine: Tree, out: Tree, altered: Tree)
    requires pristine.Keys <= out.Keys <= altered.Keys
    requires forall p :: p in pristine ==> Untampered(e, pristine, out, altered, p)
    requires forall p :: p in PROJECTS ==> p in pristine && Some(out[p]) == ExpatProject(pristine[p])
    requires forall p :: p in pristine ==>
               (e.Vendors(p) || (p in PROJECTS && Some(out[p]) == ExpatProject(pristine[p]))
                || out[p] == pristine[p] || SameWindowsText(p, pristine[p], out[p]))
    ensures AcceptsAll(e, pristine, altered)
  {
    hide ExpatProject, SameWindowsText;
  }

  lemma SecondBuild(e: Expat, pristine: Tree, derived: Option<Tree>, altered: Tree)
    requires e.Valid() && Build(e, pristine, derived).Some? && AcceptsAll(e, pristine, altered)
    requires Build(e, pristine, derived).value.Keys <= altered.Keys
    ensures Build(e, pristine, Some(altered)).Some?
  {
    hide ExpatProject, Vendored, Edits, AcceptsAll;
    assert RETAINED <= Build(e, pristine, derived).value.Keys;
    assert altered.Keys <= (altered + Edits(pristine).value + Vendored(e).value).Keys;
  }

  /** In particular the result is a fixed point. */
  lemma BuildIsFixed(e: Expat, pristine: Tree, derived: Option<Tree>)
    requires e.Valid() && Build(e, pristine, derived).Some?
    ensures Build(e, pristine, Build(e, pristine, derived)) == Build(e, pristine, derived)
  {
    hide Build;
    var out := Build(e, pristine, derived).value;
    BuildAgain(e, pristine, derived, out);
    assert Build(e, pristine, Some(out)).value == out;
  }

  /** A change to any other original file is refused, unless it is one of line endings in
      source text or puts a project back to its pristine bytes. */
  lemma TamperingRefused(e: Expat, pristine: Tree, altered: Tree, p: Path)
    requires e.Valid() && p in pristine && !e.Vendors(p)
    requires p !in altered ||
             (altered[p] != pristine[p]
              && (p in PROJECTS ==> Some(altered[p]) != ExpatProject(pristine[p]))
              && !SameWindowsText(p, pristine[p], altered[p]))
    ensures Build(e, pristine, Some(altered)) == None
  {
    hide ExpatProject, SameWindowsText, Edits;
    assert !Accepts(e, pristine, altered, p);
  }

  /** The same by the text alone: a change in anything but carriage returns, or to any file
      that is not C or Python source, is refused. */
  lemma TextChangeRefused(e: Expat, pristine: Tree, altered: Tree, p: Path)
    requires e.Valid() && p in pristine && !e.Vendors(p) && p !in PROJECTS
    requires p in altered && altered[p] != pristine[p]
    requires !InSource(p) || WithoutReturns(altered[p]) != WithoutReturns(pristine[p])
    ensures Build(e, pristine, Some(altered)) == None
  {
    hide Build, SameWindowsText;
    if SameWindowsText(p, pristine[p], altered[p]) { SameTextMeans(p, pristine[p], altered[p]); }
    TamperingRefused(e, pristine, altered, p);
  }
}
