/** `repack_with_ffmpeg_notices`: a wheel's members plus the FFmpeg notices, with a fresh
    RECORD, written in one canonical arrangement.  File contents are modelled as text. */
module WheelRepack {
  import opened Sorting
  import Csv

  type Bytes = string

  datatype Member = Member(name: string, data: Bytes, directory: bool)

  /** What a wheel must name besides its own members. */
  datatype Notices = Notices(record: string, lgpl: string, provenance: string, lgplText: Bytes, provenanceText: Bytes)
  {
    predicate Valid() { record != lgpl && record != provenance && lgpl != provenance }

    function Reserved(): set<string> { {record, lgpl, provenance} }
  }

  /** The digest column and the length column, as functions of the contents. */
  datatype Columns = Columns(digest: Bytes -> string, length: Bytes -> string)

  /** The files of an archive; a later member hides an earlier one of the same name. */
  function Files(archive: seq<Member>): map<string, Bytes>
  {
    if archive == [] then map[]
    else
      var n := |archive| - 1;
      if archive[n].directory then Files(archive[..n]) else Files(archive[..n])[archive[n].name := archive[n].data]
  }

  /** A name reads as the last file of that name. */
  lemma {:induction false} LastFileWins(archive: seq<Member>, i: nat)
    requires i < |archive| && !archive[i].directory
    requires forall j :: i < j < |archive| ==> archive[j].directory || archive[j].name != archive[i].name
    ensures archive[i].name in Files(archive) && Files(archive)[archive[i].name] == archive[i].data
  {
    var n := |archive| - 1;
    if i < n { LastFileWins(archive[..n], i); }
  }

  // ---- Names in order ----

  lemma {:induction false} LeastName(names: set<string>) returns (least: string)
    requires names != {}
    ensures least in names && forall x :: x in names ==> Leq(least, x)
    decreases |names|
  {
    var some :| some in names;
    var others := names - {some};
    LeqTotal(some, some);
    if others == {} {
      least := some;
      assert forall x :: x in names ==> x == some || x in others;
    } else {
      var m := LeastName(others);
      LeqTotal(some, m);
      least := if Leq(some, m) then some else m;
      forall x | x in names
        ensures Leq(least, x)
      {
        if x != some {
          assert x in others;
          if least == some { LeqTransitive(some, m, x); }
        }
      }
    }
  }

  lemma HasLeast(names: set<string>)
    ensures names == {} || exists least :: least in names && forall x :: x in names ==> Leq(least, x)
  {
    if names != {} { var least := LeastName(names); }
  }

  /** `sorted(names)` */
  ghost function InOrder(names: set<string>): seq<string>
    decreases |names|
  {
    HasLeast(names);
    if names == {} then []
    else
      var least :| least in names && forall x :: x in names ==> Leq(least, x);
      [least] + InOrder(names - {least})
  }

  lemma {:induction false} InOrderLists(names: set<string>)
    ensures NoDuplicates(InOrder(names))
    ensures forall x :: x in InOrder(names) <==> x in names
    ensures Sorted(Leq, InOrder(names))
    decreases |names|
  {
    hide Leq;
    HasLeast(names);
    var s := InOrder(names);
    if names != {} {
      assert s[0] in names && s == [s[0]] + InOrder(names - {s[0]});
      InOrderLists(names - {s[0]});
    }
  }

  // ---- The canonical arrangement ----

  function Row(files: map<string, Bytes>, c: Columns, name: string): seq<string>
  {
    if name in files then [name, c.digest(files[name]), c.length(files[name])] else [name, "", ""]
  }

  ghost function RowsOf(files: map<string, Bytes>, c: Columns, names: seq<string>): (rows: seq<seq<string>>)
    ensures Csv.Writable(rows)
  {
    seq(|names|, i requires 0 <= i < |names| => Row(files, c, names[i]))
  }

  ghost function RecordRows(files: map<string, Bytes>, c: Columns, record: string): seq<seq<string>>
  {
    RowsOf(files, c, InOrder(files.Keys - {record})) + [[record, "", ""]]
  }

  /** `_render_record` */
  ghost function Record(files: map<string, Bytes>, c: Columns, record: string): Bytes
  {
    Csv.Text(RecordRows(files, c, record))
  }

  ghost function Payload(files: map<string, Bytes>, n: Notices, c: Columns): map<string, Bytes>
  {
    var kept := files - n.Reserved();
    var noticed := kept[n.lgpl := n.lgplText][n.provenance := n.provenanceText];
    noticed[n.record := Record(noticed, c, n.record)]
  }

  /** `_write_deterministic_wheel` */
  ghost function Arranged(files: map<string, Bytes>): seq<Member>
  {
    var names := InOrder(files.Keys);
    seq(|names|, i requires 0 <= i < |names| =>
      Member(names[i], if names[i] in files then files[names[i]] else "", false))
  }

  ghost function Repacked(archive: seq<Member>, n: Notices, c: Columns): seq<Member>
  {
    Arranged(Payload(Files(archive), n, c))
  }

  // ---- Repacking, step by step ----

  /** The keys of a dictionary, in the order they were first stored. */
  ghost predicate Lists(order: seq<string>, files: map<string, Bytes>)
  {
    NoDuplicates(order) && forall x :: x in order <==> x in files
  }

  lemma SortedListing(order: seq<string>, files: map<string, Bytes>)
    requires Lists(order, files)
    ensures Sort(Leq, order) == InOrder(files.Keys)
  {
    hide InOrder, Leq, Sort;
    var s, t := Sort(Leq, order), InOrder(files.Keys);
    InOrderLists(files.Keys);
    SortElements(Leq, order);
    NameOrder();
    SortSorts(Leq, order);
    SameElementsSameMultiset(s, t);
    forall x, y | x in s && y in s && Leq(x, y) && Leq(y, x) ensures x == y { LeqTotal(x, y); }
    SortedUnique(Leq, s, t);
  }

  lemma NameOrder()
    ensures TotalPreorder(Leq)
  {
    forall a: string, b: string ensures Leq(a, b) || Leq(b, a) { LeqTotal(a, b); }
    forall a: string, b: string, c: string | Leq(a, b) && Leq(b, c) ensures Leq(a, c) { LeqTransitive(a, b, c); }
  }

  method Store(files: map<string, Bytes>, order: seq<string>, name: string, data: Bytes)
    returns (files': map<string, Bytes>, order': seq<string>)
    requires Lists(order, files)
    ensures files' == files[name := data] && Lists(order', files')
  {
    order' := if name in files then order else order + [name];
    files' := files[name := data];
  }

  method ReadMembers(archive: seq<Member>, reserved: set<string>)
    returns (files: map<string, Bytes>, order: seq<string>)
    ensures files == Files(archive) - reserved && Lists(order, files)
  {
    files, order := map[], [];
    for i := 0 to |archive|
      invariant files == Files(archive[..i]) - reserved && Lists(order, files)
    {
      assert archive[..i + 1][..i] == archive[..i];
      if !archive[i].directory && archive[i].name !in reserved {
        files, order := Store(files, order, archive[i].name, archive[i].data);
      }
    }
    assert archive[..|archive|] == archive;
  }

  method RenderRecord(files: map<string, Bytes>, order: seq<string>, c: Columns, record: string) returns (text: Bytes)
    requires Lists(order, files) && record !in files
    ensures text == Record(files, c, record)
  {
    hide InOrder, Sort, Leq, RowsOf, Csv.Text, Csv.RowText;
    var names := Sort(Leq, order);
    SortedListing(order, files);
    SortElements(Leq, order);
    assert files.Keys - {record} == files.Keys;
    NoText(files, c);
    assert names[..0] == [];
    text := "";
    for i := 0 to |names|
      invariant text == Csv.Text(RowsOf(files, c, names[..i]))
    {
      OneMoreRow(files, c, names, i);
      text := text + Csv.RowText([names[i], c.digest(files[names[i]]), c.length(files[names[i]])]);
    }
    assert names[..|names|] == names;
    Csv.TextSnoc(RowsOf(files, c, names), [record, "", ""]);
    text := text + Csv.RowText([record, "", ""]);
  }

  lemma OneMoreRow(files: map<string, Bytes>, c: Columns, names: seq<string>, i: nat)
    requires i < |names|
    ensures Csv.Text(RowsOf(files, c, names[..i + 1])) ==
            Csv.Text(RowsOf(files, c, names[..i])) + Csv.RowText(Row(files, c, names[i]))
  {
    hide Csv.Text, Csv.RowText;
    assert RowsOf(files, c, names[..i + 1]) == RowsOf(files, c, names[..i]) + [Row(files, c, names[i])];
    Csv.TextSnoc(RowsOf(files, c, names[..i]), Row(files, c, names[i]));
  }

  lemma NoText(files: map<string, Bytes>, c: Columns)
    ensures Csv.Text(RowsOf(files, c, [])) == ""
  {
  }

  method Repack(archive: seq<Member>, n: Notices, c: Columns) returns (wheel: seq<Member>)
    requires n.Valid()
    ensures wheel == Repacked(archive, n, c)
  {
    hide InOrder, Sort, Files, Record;
    var files, order := ReadMembers(archive, n.Reserved());
    files, order := Store(files, order, n.lgpl, n.lgplText);
    files, order := Store(files, order, n.provenance, n.provenanceText);
    var record := RenderRecord(files, order, c, n.record);
    files, order := Store(files, order, n.record, record);
    assert files == Payload(Files(archive), n, c);
    var names := Sort(Leq, order);
    SortedListing(order, files);
    InOrderLists(files.Keys);
    wheel := [];
    for i := 0 to |names|
      invariant wheel == Arranged(files)[..i]
    {
      wheel := wheel + [Member(names[i], files[names[i]], false)];
    }
  }

  // ---- Normal form ----

  /** Reading an arranged wheel gives back the files it was arranged from. */
  lemma ReadsBack(files: map<string, Bytes>)
    ensures Files(Arranged(files)) == files
  {
    hide InOrder, Files, Sorted;
    var names := InOrder(files.Keys);
    var archive := Arranged(files);
    InOrderLists(files.Keys);
    FilesOfPrefix(files, names, archive, |names|);
    assert archive[..|names|] == archive;
    assert names[..|names|] == names;
  }

  lemma {:induction false} FilesOfPrefix(files: map<string, Bytes>, names: seq<string>, archive: seq<Member>, k: nat)
    requires k <= |names| == |archive| && forall i :: 0 <= i < |names| ==> names[i] in files
    requires forall i :: 0 <= i < |names| ==> archive[i] == Member(names[i], files[names[i]], false)
    ensures forall x :: x in Files(archive[..k]) <==> x in names[..k]
    ensures forall x :: x in Files(archive[..k]) ==> x in files && Files(archive[..k])[x] == files[x]
  {
    if k > 0 {
      FilesOfPrefix(files, names, archive, k - 1);
      assert archive[..k][..k - 1] == archive[..k - 1];
      assert names[..k] == names[..k - 1] + [names[k - 1]];
    }
  }

  /** Adding the notices again replaces what was there and nothing else. */
  lemma PayloadAgain(files: map<string, Bytes>, n: Notices, m: Notices, c: Columns)
    requires n.Reserved() == m.Reserved()
    ensures Payload(Payload(files, n, c), m, c) == Payload(files, m, c)
  {
    hide Record;
    assert Payload(files, n, c) - m.Reserved() == files - m.Reserved();
  }

  /** Repacking a repacked wheel reproduces it; with other notices under the same names it
      gives what repacking the original with those would. */
  lemma NormalForm(archive: seq<Member>, n: Notices, m: Notices, c: Columns)
    requires n.Reserved() == m.Reserved()
    ensures Repacked(Repacked(archive, n, c), n, c) == Repacked(archive, n, c)
    ensures Repacked(Repacked(archive, n, c), m, c) == Repacked(archive, m, c)
  {
    hide Arranged, Payload, Files;
    ReadsBack(Payload(Files(archive), n, c));
    PayloadAgain(Files(archive), n, n, c);
    PayloadAgain(Files(archive), n, m, c);
  }

  /** The repacked wheel has the files it had, the two notices, and RECORD. */
  lemma RepackKeepsFiles(archive: seq<Member>, n: Notices, c: Columns)
    requires n.Valid()
    ensures var was, now := Files(archive), Files(Repacked(archive, n, c));
            && now.Keys == was.Keys + n.Reserved()
            && (forall x :: x in was && x !in n.Reserved() ==> now[x] == was[x])
            && now[n.lgpl] == n.lgplText && now[n.provenance] == n.provenanceText
  {
    hide Arranged, Files, Record;
    ReadsBack(Payload(Files(archive), n, c));
  }

  /** Its members are files only, strictly in the order of their names. */
  lemma RepackedInOrder(archive: seq<Member>, n: Notices, c: Columns)
    ensures var wheel := Repacked(archive, n, c);
            && (forall i :: 0 <= i < |wheel| ==> !wheel[i].directory)
            && (forall i, j :: 0 <= i < j < |wheel| ==>
                  Leq(wheel[i].name, wheel[j].name) && wheel[i].name != wheel[j].name)
  {
    hide InOrder, Leq, Payload, Files;
    InOrderLists(Payload(Files(archive), n, c).Keys);
  }

  /** No two files of an archive share a name. */
  ghost predicate Plain(archive: seq<Member>)
  {
    forall i, j :: 0 <= i < j < |archive| && !archive[i].directory && !archive[j].directory ==>
      archive[i].name != archive[j].name
  }

  lemma {:induction false} FilesExactly(archive: seq<Member>, name: string, data: Bytes)
    requires Plain(archive)
    ensures name in Files(archive) && Files(archive)[name] == data <==> Member(name, data, false) in archive
    ensures name in Files(archive) <==>
            exists i :: 0 <= i < |archive| && !archive[i].directory && archive[i].name == name
  {
    if archive != [] {
      var n := |archive| - 1;
      FilesExactly(archive[..n], name, data);
      assert archive == archive[..n] + [archive[n]];
    }
  }

  /** Neither the order of the members nor any directory entries make a difference. */
  lemma OnlyFilesMatter(one: seq<Member>, other: seq<Member>, n: Notices, c: Columns)
    requires Plain(one) && Plain(other)
    requires forall m: Member :: !m.directory ==> (m in one <==> m in other)
    ensures Repacked(one, n, c) == Repacked(other, n, c)
  {
    hide Files, Arranged, Payload;
    SameFiles(one, other);
    SameFiles(other, one);
    assert Files(one) == Files(other);
  }

  lemma SameFiles(one: seq<Member>, other: seq<Member>)
    requires Plain(one) && Plain(other)
    requires forall m: Member :: !m.directory ==> (m in one <==> m in other)
    ensures forall name :: name in Files(one) ==> name in Files(other) && Files(other)[name] == Files(one)[name]
  {
    hide Files;
    forall name | name in Files(one)
      ensures name in Files(other) && Files(other)[name] == Files(one)[name]
    {
      FilesExactly(one, name, Files(one)[name]);
      FilesExactly(other, name, Files(one)[name]);
    }
  }

  // ---- What RECORD says ----

  /** A row gives a member's digest and length, or it is RECORD's own, with empty columns. */
  ghost predicate RowFits(row: seq<string>, files: map<string, Bytes>, c: Columns, record: string)
  {
    |row| == 3 && row[0] in files
    && row == if row[0] == record then [record, "", ""] else [row[0], c.digest(files[row[0]]), c.length(files[row[0]])]
  }

  /** One row for each file. */
  ghost predicate Accounts(rows: seq<seq<string>>, files: map<string, Bytes>, c: Columns, record: string)
  {
    && (forall i :: 0 <= i < |rows| ==> RowFits(rows[i], files, c, record))
    && (forall i, j :: 0 <= i < j < |rows| ==> rows[i] != [] && rows[j] != [] && rows[i][0] != rows[j][0])
    && (forall x :: x in files ==> exists i :: 0 <= i < |rows| && rows[i] != [] && rows[i][0] == x)
  }

  /** The members' rows by name, RECORD's own row behind them. */
  ghost predicate InRecordOrder(rows: seq<seq<string>>, record: string)
  {
    && rows != [] && rows[|rows| - 1] == [record, "", ""]
    && forall i, j :: 0 <= i < j < |rows| - 1 ==> rows[i] != [] && rows[j] != [] && Leq(rows[i][0], rows[j][0])
  }

  /** Read as CSV, RECORD has exactly one row for each member of the repacked wheel, with
      that member's digest and length, but for its own row, whose columns are empty. */
  lemma RecordNamesEveryMember(archive: seq<Member>, n: Notices, c: Columns)
    requires n.Valid()
    ensures var files := Files(Repacked(archive, n, c));
            && n.record in files && Accounts(Csv.Read(files[n.record]), files, c, n.record)
            && InRecordOrder(Csv.Read(files[n.record]), n.record)
  {
    hide InOrder, Files, Csv.Read, Csv.Text, RecordRows, Accounts, Arranged;
    var kept := Files(archive) - n.Reserved();
    var noticed := kept[n.lgpl := n.lgplText][n.provenance := n.provenanceText];
    var files := Payload(Files(archive), n, c);
    ReadsBack(files);
    RowWidth(noticed, c, n.record);
    Csv.RoundTrip(RecordRows(noticed, c, n.record));
    RowsAccount(noticed, files, n.record, c);
    RowsInOrder(noticed, n.record, c);
  }

  lemma RowsInOrder(files: map<string, Bytes>, record: string, c: Columns)
    requires record !in files
    ensures InRecordOrder(RecordRows(files, c, record), record)
  {
    hide InOrder, Leq;
    assert files.Keys - {record} == files.Keys;
    InOrderLists(files.Keys);
  }

  lemma RowWidth(files: map<string, Bytes>, c: Columns, record: string)
    ensures forall i :: 0 <= i < |RecordRows(files, c, record)| ==> |RecordRows(files, c, record)[i]| == 3
  {
    hide InOrder;
  }

  lemma RowsAccount(noticed: map<string, Bytes>, files: map<string, Bytes>, record: string, c: Columns)
    requires record !in noticed && record in files && files == noticed[record := files[record]]
    ensures Accounts(RecordRows(noticed, c, record), files, c, record)
  {
    hide InOrder, Sorted, RowFits, Row;
    var names, rows := InOrder(noticed.Keys), RecordRows(noticed, c, record);
    assert noticed.Keys - {record} == noticed.Keys;
    InOrderLists(noticed.Keys);
    forall i | 0 <= i < |rows|
      ensures RowFits(rows[i], files, c, record) && rows[i] != []
      ensures rows[i][0] == if i < |names| then names[i] else record
    {
      if i < |names| { MemberRow(noticed, files, names[i], record, c); } else { OwnRow(files, record, c); }
    }
    forall x | x in files
      ensures exists i :: 0 <= i < |rows| && rows[i] != [] && rows[i][0] == x
    {
      if x == record {
        assert rows[|names|][0] == x;
      } else {
        var i :| 0 <= i < |names| && names[i] == x;
        assert rows[i][0] == x;
      }
    }
  }

  lemma MemberRow(noticed: map<string, Bytes>, files: map<string, Bytes>, name: string, record: string, c: Columns)
    requires name in noticed && name != record && record in files && files == noticed[record := files[record]]
    ensures RowFits(Row(noticed, c, name), files, c, record) && Row(noticed, c, name)[0] == name
  {
  }

  lemma OwnRow(files: map<string, Bytes>, record: string, c: Columns)
    requires record in files
    ensures RowFits([record, "", ""], files, c, record)
  {
  }
}
