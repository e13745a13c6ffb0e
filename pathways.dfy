/**
 * `get_pathways` (lines 237-302): one member set per pathway file, read line by line, then
 * either restricted to an allow-list of 34 pathways, or stripped of 26 top-level pathways
 * and of every pathway whose member set another pathway covers; then the union of all sets.
 */
module Pathways {
  import opened Common
  import opened Text

  /** The ways `get_pathways` fails: an index or key error raised by the source. */
  datatype PathwayError =
    | EmptyLine                  // `line[0]` on an empty line; iterating a file never yields one
    | BlankLine                  // `row[0]` on a line with no words
    | MissingTopLevel(name: Id)  // `del pathway_nodes[i]` for an absent top-level name

  /** One pathway file: the name derived from its path, and its lines as read. */
  datatype PathwayFile = PathwayFile(name: Id, lines: seq<string>)

  /** The top-level pathways deleted when every pathway is read (lines 240-244). */
  const TopLevel: seq<Id> := [
    "Circadian-Clock", "Cell-Cycle", "Disease", "Programmed-Cell-Death",
    "Extracellular-matrix-organization", "Vesicle-mediated-transport",
    "Cellular-responses-to-external-stimuli", "Organelle-biogenesis-and-maintenance",
    "Neuronal-System", "NICD-traffics-to-nucleus", "Signaling-Pathways",
    "Metabolism-of-RNA", "DNA-Repair", "Metabolism", "Mitophagy",
    "Gene-expression-(Transcription)", "Developmental-Biology", "Chromatin-organization",
    "Transport-of-small-molecules", "Immune-System", "Metabolism-of-proteins",
    "Muscle-contraction", "Digestion-and-absorption", "Reproduction",
    "Hemostasis", "Cell-Cell-communication"]

  /** The 34 signalling pathways kept when not every pathway is read (lines 246-250). */
  const Original34: seq<Id> := [
    "Signaling-by-EGFR", "Signaling-by-ERBB2", "Signaling-by-ERBB4", "PI3K-AKT-Signaling",
    "Signaling-by-MET", "Signaling-by-FGFR", "ERK1-ERK2-pathway",
    "Signaling-by-Type-1-Insulin-like-Growth-Factor-1-Receptor-(IGF1R)",
    "Signaling-by-Insulin-receptor", "Integrin-signaling", "Signaling-by-GPCR",
    "DAG-and-IP3-signaling", "Signaling-by-PDGF", "Signaling-by-VEGF", "Signaling-by-NTRKs",
    "Signaling-by-WNT", "TNF-signaling", "Signaling-by-PTK6",
    "Signaling-by-TGF-beta-Receptor-Complex", "TRAIL-signaling", "FasL--CD95L-signaling",
    "Signaling-by-NOTCH", "Signaling-by-BMP", "Signaling-by-Activin", "MAPK6-MAPK4-signaling",
    "p75-NTR-receptor-mediated-signalling", "Signaling-by-SCF-KIT", "Signaling-by-Hedgehog",
    "Signaling-by-Nuclear-Receptors", "Signaling-by-Leptin", "Signaling-by-Hippo",
    "Signaling-by-Rho-GTPases", "Signaling-by-MST1", "mTOR-signalling"]

  // ---------------------------------------------------------------------------------------
  // One line (lines 264-271)
  // ---------------------------------------------------------------------------------------

  /** The line is a comment: its first character is `#`. */
  predicate IsComment(line: string)
  {
    line != [] && line[0] == '#'
  }

  /** The whitespace-separated columns of a line. */
  function Columns(line: string): seq<string>
  {
    Words(Strip(line))
  }

  /**
   * The identifiers one line contributes: none for a comment, otherwise the first column and
   * every `;`-separated item of the second column when there is one. An empty line and a
   * line without columns are the source's index errors. A line read from a file always holds
   * at least its newline or a last character, so only the second can arise there; the first is
   * kept so that the function is total on strings.
   */
  function LineMembers(line: string): Result<set<Id>, PathwayError>
  {
    if line == [] then Err(EmptyLine)
    else if line[0] == '#' then Ok({})
    else
      var row := Columns(line);
      if row == [] then Err(BlankLine)
      else if |row| > 1 then Ok({row[0]} + SetOf(SplitOn(row[1], ';')))
      else Ok({row[0]})
  }

  /**
   * What a line contributes: nothing for a comment; an error for an empty line or one without
   * columns; otherwise its first column and the `;`-separated items of its second column.
   */
  lemma LineMembersMeaning(line: string)
    ensures LineMembers(line).Err? <==> line == [] || (!IsComment(line) && Columns(line) == [])
    ensures IsComment(line) ==> LineMembers(line) == Ok({})
    ensures LineMembers(line).Ok? && !IsComment(line) ==>
              forall x :: x in LineMembers(line).value <==>
                x == Columns(line)[0] || (|Columns(line)| > 1 && x in SplitOn(Columns(line)[1], ';'))
  {
    var row := Columns(line);
    if line != [] && !IsComment(line) && |row| > 1 {
      forall x {
        SetOfContains(SplitOn(row[1], ';'), x);
      }
    }
  }

  /** The members of a file's lines, or the error of the first line that fails. */
  ghost function FileMembers(lines: seq<string>): Result<set<Id>, PathwayError>
  {
    if lines == [] then Ok({})
    else
      match FileMembers(lines[..|lines| - 1])
      case Err(e) => Err(e)
      case Ok(s) =>
        match LineMembers(lines[|lines| - 1])
        case Err(e) => Err(e)
        case Ok(t) => Ok(s + t)
  }

  /** Once a prefix of the lines fails, the whole file fails with the same error. */
  lemma {:induction false} FileErrorPersists(lines: seq<string>, i: nat)
    requires i <= |lines| && FileMembers(lines[..i]).Err?
    ensures FileMembers(lines) == FileMembers(lines[..i])
    decreases |lines| - i
  {
    if i < |lines| {
      assert lines[..i + 1][..i] == lines[..i];
      FileErrorPersists(lines, i + 1);
    } else {
      assert lines[..i] == lines;
    }
  }

  /** Reads one pathway file (lines 263-271): its member set, or the error the source raises. */
  method ReadPathway(lines: seq<string>) returns (r: Result<set<Id>, PathwayError>)
    ensures r == FileMembers(lines)
  {
    var members: set<Id> := {};
    for i := 0 to |lines|
      invariant FileMembers(lines[..i]) == Ok(members)
    {
      assert lines[..i + 1][..i] == lines[..i];
      var line := lines[i];
      if line == [] {
        FileErrorPersists(lines, i + 1);
        return Err(EmptyLine);
      }
      assert lines[..i + 1][i] == line;
      if line[0] == '#' {
        assert LineMembers(line) == Ok({});
        assert members + {} == members;
        assert FileMembers(lines[..i + 1]) == Ok(members);
        continue;
      }
      var row := Columns(line);
      if row == [] {
        FileErrorPersists(lines, i + 1);
        return Err(BlankLine);
      }
      ghost var before := members;
      members := members + {row[0]};
      if |row| > 1 {
        members := members + SetOf(SplitOn(row[1], ';'));
        assert LineMembers(line) == Ok({row[0]} + SetOf(SplitOn(row[1], ';')));
      } else {
        assert LineMembers(line) == Ok({row[0]});
      }
      assert FileMembers(lines[..i + 1]) == Ok(before + LineMembers(line).value);
      assert members == before + LineMembers(line).value;
    }
    assert lines[..|lines|] == lines;
    r := Ok(members);
  }

  /** A file reads without error exactly when each of its lines does. */
  lemma {:induction false} FileMembersOk(lines: seq<string>)
    ensures FileMembers(lines).Ok? <==> forall k :: 0 <= k < |lines| ==> LineMembers(lines[k]).Ok?
  {
    if lines != [] {
      var p := lines[..|lines| - 1];
      FileMembersOk(p);
      assert forall k :: 0 <= k < |p| ==> p[k] == lines[k];
    }
  }

  /** A file that reads without error has exactly the members its lines contribute. */
  lemma {:induction false} FileMembersContent(lines: seq<string>, x: Id)
    requires FileMembers(lines).Ok?
    ensures x in FileMembers(lines).value <==>
            exists k :: 0 <= k < |lines| && LineMembers(lines[k]).Ok? && x in LineMembers(lines[k]).value
  {
    if lines != [] {
      var p := lines[..|lines| - 1];
      FileMembersContent(p, x);
      if exists k :: 0 <= k < |lines| && LineMembers(lines[k]).Ok? && x in LineMembers(lines[k]).value {
        var k :| 0 <= k < |lines| && LineMembers(lines[k]).Ok? && x in LineMembers(lines[k]).value;
        if k < |p| {
          assert p[k] == lines[k];
        }
      }
      if exists k :: 0 <= k < |p| && LineMembers(p[k]).Ok? && x in LineMembers(p[k]).value {
        var k :| 0 <= k < |p| && LineMembers(p[k]).Ok? && x in LineMembers(p[k]).value;
        assert lines[k] == p[k];
      }
    }
  }

  /** A comment line anywhere contributes nothing. */
  lemma CommentAddsNothing(lines: seq<string>, c: string)
    requires IsComment(c)
    ensures FileMembers(lines + [c]) == FileMembers(lines)
  {
    assert (lines + [c])[..|lines|] == lines;
    match FileMembers(lines)
    case Err(_) =>
    case Ok(s) => assert s + {} == s;
  }

  /** Stripping leaves a string alone when its ends are not whitespace, after a trailing newline is removed. */
  lemma StripLine(s: string)
    requires s != [] && !IsSpace(s[0]) && !IsSpace(s[|s| - 1])
    ensures Strip(s + "\n") == s
  {
    var t := s + "\n";
    assert t[0] == s[0];
    assert LStrip(t) == t;
    assert t[|t| - 1] == '\n';
    assert t[..|t| - 1] == s;
    assert RStrip(s) == s;
  }

  /** A rendered line has two columns: the primary identifier and the joined members. */
  lemma RenderedColumns(primary: Id, joined: string)
    requires primary != [] && NoSpace(primary) && joined != [] && NoSpace(joined)
    ensures Columns(primary + "\t" + joined + "\n") == [primary, joined]
  {
    var body := primary + "\t" + joined;
    assert body[0] == primary[0];
    assert body[|body| - 1] == joined[|joined| - 1];
    StripLine(body);
    assert primary + "\t" + joined + "\n" == body + "\n";
    assert body == primary + ("\t" + joined);
    WordsOfWord(primary, "\t" + joined);
    assert ("\t" + joined)[1..] == joined;
    WordsOfWord(joined, []);
    assert joined + [] == joined;
  }

  /**
   * Reading a rendered line gives back what was rendered: a primary identifier, a tab, the
   * `;`-joined further members and the newline contribute the primary identifier and the members.
   */
  lemma ParseRenderedLine(primary: Id, more: seq<Id>)
    requires primary != [] && NoSpace(primary) && primary[0] != '#'
    requires more != [] && forall k :: 0 <= k < |more| ==> more[k] != [] && NoSpace(more[k]) && ';' !in more[k]
    ensures LineMembers(primary + "\t" + JoinOn(more, ';') + "\n") ==
            Ok({primary} + SetOf(more))
  {
    var joined := JoinOn(more, ';');
    JoinOnShape(more, ';');
    RenderedColumns(primary, joined);
    SplitOnJoin(more, ';');
    var line := primary + "\t" + joined + "\n";
    assert line[0] == primary[0];
  }

  /** Joining nonempty space-free items gives a nonempty space-free string. */
  lemma {:induction false} JoinOnShape(ws: seq<string>, c: char)
    requires ws != [] && !IsSpace(c)
    requires forall k :: 0 <= k < |ws| ==> ws[k] != [] && NoSpace(ws[k])
    ensures JoinOn(ws, c) != [] && NoSpace(JoinOn(ws, c))
  {
    if |ws| > 1 {
      JoinOnShape(ws[1..], c);
      var t := JoinOn(ws[1..], c);
      assert JoinOn(ws, c) == ws[0] + [c] + t;
      assert forall k :: 0 <= k < |ws[0] + [c] + t| ==>
        (ws[0] + [c] + t)[k] == (if k < |ws[0]| then ws[0][k] else if k == |ws[0]| then c else t[k - |ws[0]| - 1]);
    }
  }

  // ---------------------------------------------------------------------------------------
  // All files (lines 255-271)
  // ---------------------------------------------------------------------------------------

  /** A file with this name is read: every file when `runAll`, otherwise only those allowed. */
  predicate Selected(runAll: bool, allow: seq<Id>, name: Id)
  {
    runAll || name in allow
  }

  /** The pathway map after reading `files`, or the first read error. */
  ghost function Collected(files: seq<PathwayFile>, runAll: bool, allow: seq<Id>): Result<map<Id, set<Id>>, PathwayError>
  {
    if files == [] then Ok(map[])
    else
      var f := files[|files| - 1];
      match Collected(files[..|files| - 1], runAll, allow)
      case Err(e) => Err(e)
      case Ok(pn) =>
        if !Selected(runAll, allow, f.name) then Ok(pn)
        else
          match FileMembers(f.lines)
          case Err(e) => Err(e)
          case Ok(s) => Ok(pn[f.name := s])
  }

  /** Once a prefix of the files fails, the whole read fails with the same error. */
  lemma {:induction false} CollectedErrorPersists(files: seq<PathwayFile>, runAll: bool, allow: seq<Id>, i: nat)
    requires i <= |files| && Collected(files[..i], runAll, allow).Err?
    ensures Collected(files, runAll, allow) == Collected(files[..i], runAll, allow)
    decreases |files| - i
  {
    if i < |files| {
      assert files[..i + 1][..i] == files[..i];
      CollectedErrorPersists(files, runAll, allow, i + 1);
    } else {
      assert files[..i] == files;
    }
  }

  /** The file loop of lines 257-271: reads every selected file into the pathway map. */
  method CollectPathways(files: seq<PathwayFile>, runAll: bool, allow: seq<Id>) returns (r: Result<map<Id, set<Id>>, PathwayError>)
    ensures r == Collected(files, runAll, allow)
  {
    var pn: map<Id, set<Id>> := map[];
    for i := 0 to |files|
      invariant Collected(files[..i], runAll, allow) == Ok(pn)
    {
      assert files[..i + 1][..i] == files[..i];
      var f := files[i];
      if !runAll && f.name !in allow {
        continue;
      }
      var members := ReadPathway(f.lines);
      if members.Err? {
        CollectedErrorPersists(files, runAll, allow, i + 1);
        return Err(members.error);
      }
      pn := pn[f.name := members.value];
    }
    assert files[..|files|] == files;
    r := Ok(pn);
  }

  /** The pathways read are exactly the selected file names; without `runAll` they are among those allowed. */
  lemma {:induction false} CollectedKeys(files: seq<PathwayFile>, runAll: bool, allow: seq<Id>, name: Id)
    requires Collected(files, runAll, allow).Ok?
    ensures name in Collected(files, runAll, allow).value <==>
            exists i :: 0 <= i < |files| && files[i].name == name && Selected(runAll, allow, name)
    ensures !runAll && name in Collected(files, runAll, allow).value ==> name in allow
  {
    if files != [] {
      var p := files[..|files| - 1];
      CollectedKeys(p, runAll, allow, name);
      if exists i :: 0 <= i < |files| && files[i].name == name && Selected(runAll, allow, name) {
        var i :| 0 <= i < |files| && files[i].name == name && Selected(runAll, allow, name);
        if i < |p| {
          assert p[i] == files[i];
        }
      }
      if exists i :: 0 <= i < |p| && p[i].name == name && Selected(runAll, allow, name) {
        var i :| 0 <= i < |p| && p[i].name == name && Selected(runAll, allow, name);
        assert files[i] == p[i];
      }
    }
  }

  /** Each pathway's set is what the last selected file of that name reads as. */
  lemma {:induction false} CollectedValue(files: seq<PathwayFile>, runAll: bool, allow: seq<Id>, name: Id)
    requires Collected(files, runAll, allow).Ok? && name in Collected(files, runAll, allow).value
    ensures exists i :: 0 <= i < |files| && files[i].name == name &&
              FileMembers(files[i].lines) == Ok(Collected(files, runAll, allow).value[name]) &&
              forall j :: i < j < |files| ==> files[j].name != name || !Selected(runAll, allow, name)
  {
    var p := files[..|files| - 1];
    var f := files[|files| - 1];
    assert Collected(p, runAll, allow).Ok?;
    var pn := Collected(p, runAll, allow).value;
    if Selected(runAll, allow, f.name) && f.name == name {
      assert FileMembers(f.lines) == Ok(Collected(files, runAll, allow).value[name]);
    } else {
      assert name in pn && Collected(files, runAll, allow).value[name] == pn[name];
      CollectedValue(p, runAll, allow, name);
      var i :| 0 <= i < |p| && p[i].name == name && FileMembers(p[i].lines) == Ok(Collected(p, runAll, allow).value[name]) &&
               forall j :: i < j < |p| ==> p[j].name != name || !Selected(runAll, allow, name);
      assert files[i] == p[i];
      assert forall j :: i < j < |files| - 1 ==> files[j] == p[j];
    }
  }

  /** A file read fails exactly when some selected file fails to read. */
  lemma {:induction false} CollectedOk(files: seq<PathwayFile>, runAll: bool, allow: seq<Id>)
    ensures Collected(files, runAll, allow).Ok? <==>
            forall i :: 0 <= i < |files| && Selected(runAll, allow, files[i].name) ==> FileMembers(files[i].lines).Ok?
  {
    if files != [] {
      var p := files[..|files| - 1];
      CollectedOk(p, runAll, allow);
      assert forall i :: 0 <= i < |p| ==> p[i] == files[i];
    }
  }

  // ---------------------------------------------------------------------------------------
  // Deleting the top-level pathways (lines 276-277)
  // ---------------------------------------------------------------------------------------

  /** `names[k]` is present and has not been deleted by an earlier occurrence. */
  predicate Deletable(pn: map<Id, set<Id>>, names: seq<Id>, k: nat)
    requires k < |names|
  {
    names[k] in pn && names[k] !in names[..k]
  }

  /**
   * Lines 276-277: deletes the listed names one after the other, failing with a key error at
   * the first name that is not, or no longer, a key.
   */
  method DropTopLevel(pn: map<Id, set<Id>>, names: seq<Id>) returns (r: Result<map<Id, set<Id>>, PathwayError>)
    ensures r.Ok? <==> forall k :: 0 <= k < |names| ==> Deletable(pn, names, k)
    ensures r.Ok? ==> r.value.Keys == pn.Keys - (set k | 0 <= k < |names| :: names[k])
    ensures r.Ok? ==> forall p :: p in r.value ==> r.value[p] == pn[p]
    ensures r.Err? ==>
              exists k :: 0 <= k < |names| && !Deletable(pn, names, k) && r.error == MissingTopLevel(names[k]) &&
                          forall j :: 0 <= j < k ==> Deletable(pn, names, j)
  {
    var cur := pn;
    for k := 0 to |names|
      invariant forall x :: 0 <= x < k ==> Deletable(pn, names, x)
      invariant cur.Keys == pn.Keys - (set x | 0 <= x < k :: names[x])
      invariant forall p :: p in cur ==> cur[p] == pn[p]
    {
      if names[k] !in cur {
        assert !Deletable(pn, names, k);
        return Err(MissingTopLevel(names[k]));
      }
      cur := cur - {names[k]};
      assert (set x | 0 <= x < k + 1 :: names[x]) == (set x | 0 <= x < k :: names[x]) + {names[k]};
    }
    r := Ok(cur);
  }

  /** No name is listed twice among the top-level pathways. */
  lemma TopLevelDistinct()
    ensures forall a, b :: 0 <= a < b < |TopLevel| ==> TopLevel[a] != TopLevel[b]
  {
  }

  /** With distinct names, deletion succeeds exactly when every listed name is present. */
  lemma DistinctDeletable(pn: map<Id, set<Id>>, names: seq<Id>)
    requires forall a, b :: 0 <= a < b < |names| ==> names[a] != names[b]
    ensures forall k :: 0 <= k < |names| ==> (Deletable(pn, names, k) <==> names[k] in pn)
    ensures (forall k :: 0 <= k < |names| ==> Deletable(pn, names, k)) <==>
            (forall k :: 0 <= k < |names| ==> names[k] in pn)
  {
    forall k | 0 <= k < |names|
      ensures Deletable(pn, names, k) <==> names[k] in pn
    {
      assert forall a :: 0 <= a < k ==> names[..k][a] != names[k];
      assert names[k] !in names[..k];
    }
  }

  // ---------------------------------------------------------------------------------------
  // Removing redundant pathways (lines 280-290)
  // ---------------------------------------------------------------------------------------

  /** The length test of line 285 is the subset test. */
  lemma CoversIff(a: set<Id>, b: set<Id>)
    ensures |a * b| == |a| <==> a <= b
  {
    assert |a - a * b| == |a| - |a * b|;
    if |a * b| == |a| {
      assert a - a * b == {};
      assert forall x :: x in a ==> x !in a - a * b;
    } else {
      assert a * b != a;
    }
  }

  /** Pathway `i` is covered by another pathway of `pn`. */
  ghost predicate Redundant(pn: map<Id, set<Id>>, i: Id)
    requires i in pn
  {
    exists j :: j in pn && j != i && pn[i] <= pn[j]
  }

  /**
   * The search of lines 284-287 for one pathway `i`: scans the other pathways until one
   * covers `i` by the source's length test.
   */
  method IsCovered(pn: map<Id, set<Id>>, i: Id) returns (found: bool)
    requires i in pn
    ensures found <==> Redundant(pn, i)
  {
    found := false;
    var rest := pn.Keys;
    while rest != {} && !found
      invariant rest <= pn.Keys
      invariant found ==> Redundant(pn, i)
      invariant !found ==> forall j :: j in pn && j !in rest && j != i ==> !(pn[i] <= pn[j])
      decreases |rest|
    {
      var j :| j in rest;
      CoversIff(pn[i], pn[j]);
      if i != j && |pn[i] * pn[j]| == |pn[i]| {
        found := true;
      }
      rest := rest - {j};
    }
  }

  /**
   * Lines 281-290: collects every pathway some other pathway covers, then deletes them all.
   * The survivors keep their sets.
   */
  method RemoveRedundant(pn: map<Id, set<Id>>) returns (r: map<Id, set<Id>>)
    ensures forall i :: i in r <==> i in pn && !Redundant(pn, i)
    ensures forall i :: i in r ==> r[i] == pn[i]
  {
    var toRemove: set<Id> := {};
    var rest := pn.Keys;
    while rest != {}
      invariant rest <= pn.Keys
      invariant forall i :: i in toRemove <==> i in pn && i !in rest && Redundant(pn, i)
      decreases |rest|
    {
      var i :| i in rest;
      var found := IsCovered(pn, i);
      if found {
        toRemove := toRemove + {i};
      }
      rest := rest - {i};
    }
    r := pn;
    var pending := toRemove;
    while pending != {}
      invariant pending <= toRemove
      invariant forall i :: i in r <==> i in pn && (i !in toRemove || i in pending)
      invariant forall i :: i in r ==> r[i] == pn[i]
      decreases |pending|
    {
      var t :| t in pending;
      r := r - {t};
      pending := pending - {t};
    }
  }

  /** Two pathways with the same members cover each other, so both are removed. */
  lemma EqualPathwaysBothRedundant(pn: map<Id, set<Id>>, i: Id, j: Id)
    requires i in pn && j in pn && i != j && pn[i] == pn[j]
    ensures Redundant(pn, i) && Redundant(pn, j)
  {
  }

  /** A pathway with a member no other pathway has is never redundant. */
  lemma PrivateMemberSurvives(pn: map<Id, set<Id>>, i: Id, x: Id)
    requires i in pn && x in pn[i]
    requires forall j :: j in pn && j != i ==> x !in pn[j]
    ensures !Redundant(pn, i)
  {
  }

  // ---------------------------------------------------------------------------------------
  // The union (lines 297-300) and the whole function
  // ---------------------------------------------------------------------------------------

  /** `x` is a member of some pathway of `pn`. */
  ghost predicate InSomePathway(pn: map<Id, set<Id>>, x: Id)
  {
    exists p :: p in pn && x in pn[p]
  }

  /** Lines 297-300: the union of all pathway sets. */
  method UnionOf(pn: map<Id, set<Id>>) returns (all: set<Id>)
    ensures forall x :: x in all <==> InSomePathway(pn, x)
  {
    all := {};
    var rest := pn.Keys;
    while rest != {}
      invariant rest <= pn.Keys
      invariant forall x :: x in all <==> exists p :: p in pn && p !in rest && x in pn[p]
      decreases |rest|
    {
      var p :| p in rest;
      all := all + pn[p];
      rest := rest - {p};
    }
  }

  /**
   * The outcome of `get_pathways` (lines 237-302) for the pathway files and the `run_all` flag.
   * A read error is passed on. Without `run_all`, the result is the ORIG_34 pathways read. With
   * `run_all`, it fails exactly when a TO_IGNORE name is missing, with the key error of the first
   * missing name in TO_IGNORE order, and
   * otherwise keeps the non-redundant pathways left after deleting TO_IGNORE, sets unchanged.
   * The union is the union of the result's sets.
   */
  ghost predicate PathwaysOutcome(files: seq<PathwayFile>, runAll: bool, r: Result<(map<Id, set<Id>>, set<Id>), PathwayError>)
  {
    var c := Collected(files, runAll, Original34);
    && (c.Err? ==> r == Err(c.error))
    && (c.Ok? && (!runAll || forall k :: 0 <= k < |TopLevel| ==> TopLevel[k] in c.value) ==> r.Ok?)
    && (c.Ok? && r.Err? ==>
          runAll &&
          exists k :: 0 <= k < |TopLevel| && TopLevel[k] !in c.value && r.error == MissingTopLevel(TopLevel[k]) &&
                      forall j :: 0 <= j < k ==> TopLevel[j] in c.value)
    && (r.Ok? ==> forall x :: x in r.value.1 <==> InSomePathway(r.value.0, x))
    && (r.Ok? && c.Ok? && !runAll ==> r.value.0 == c.value)
    && (r.Ok? && c.Ok? && runAll ==>
          var kept := c.value - (set k | 0 <= k < |TopLevel| :: TopLevel[k]);
          (forall k :: 0 <= k < |TopLevel| ==> TopLevel[k] in c.value) &&
          (forall i :: i in r.value.0 <==> i in kept && !Redundant(kept, i)) &&
          (forall i :: i in r.value.0 ==> r.value.0[i] == c.value[i]))
  }

  /** The outcome leaves no choice: the error, or the pathways and their union. */
  lemma PathwaysOutcomeUnique(files: seq<PathwayFile>, runAll: bool, r1: Result<(map<Id, set<Id>>, set<Id>), PathwayError>,
                              r2: Result<(map<Id, set<Id>>, set<Id>), PathwayError>)
    requires PathwaysOutcome(files, runAll, r1) && PathwaysOutcome(files, runAll, r2)
    ensures r1.Ok? <==> r2.Ok?
    ensures r1.Ok? ==> r1.value == r2.value
    ensures r1 == r2
  {
    var c := Collected(files, runAll, Original34);
    if c.Ok? && r1.Err? && r2.Err? {
      var k1 :| 0 <= k1 < |TopLevel| && TopLevel[k1] !in c.value && r1.error == MissingTopLevel(TopLevel[k1]) &&
                forall j :: 0 <= j < k1 ==> TopLevel[j] in c.value;
      var k2 :| 0 <= k2 < |TopLevel| && TopLevel[k2] !in c.value && r2.error == MissingTopLevel(TopLevel[k2]) &&
                forall j :: 0 <= j < k2 ==> TopLevel[j] in c.value;
      assert k1 == k2;
    }
    if r1.Ok? && r2.Ok? {
      var (p1, a1) := r1.value;
      var (p2, a2) := r2.value;
      assert p1.Keys == p2.Keys;
      assert p1 == p2;
      assert forall x :: x in a1 <==> x in a2;
      assert a1 == a2;
      assert r1.value == (p1, a1) && r2.value == (p2, a2);
    }
  }

  /** `get_pathways`: the selected pathways, pruned when `runAll`, and the union of their sets. */
  method GetPathways(files: seq<PathwayFile>, runAll: bool)
    returns (r: Result<(map<Id, set<Id>>, set<Id>), PathwayError>)
    ensures PathwaysOutcome(files, runAll, r)
  {
    var collected := CollectPathways(files, runAll, Original34);
    if collected.Err? {
      return Err(collected.error);
    }
    var pn := collected.value;
    if runAll {
      var dropped := DropTopLevel(pn, TopLevel);
      TopLevelDistinct();
      DistinctDeletable(pn, TopLevel);
      if dropped.Err? {
        return Err(dropped.error);
      }
      var kept := dropped.value;
      assert kept == pn - (set k | 0 <= k < |TopLevel| :: TopLevel[k]);
      pn := RemoveRedundant(kept);
    }
    var all := UnionOf(pn);
    r := Ok((pn, all));
  }
}
