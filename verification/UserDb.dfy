/** The user database as a file of lines: what reading and writing it means (src/auth/userdb_io.c). */
module UserDb {
  import opened Words
  import opened Texts
  import opened UserRecords
  import opened UserLines

  /** userdb_iterate: the records of the lines that are not empty and parse, in order. */
  function Records(lines: seq<string>): seq<Record> {
    if lines == [] then []
    else
      var n := |lines| - 1;
      Records(lines[..n]) + if lines[n] != "" && Parse(lines[n]).Some? then [Parse(lines[n]).value] else []
  }

  function FileRecords(file: string): seq<Record> { Records(Split(file, '\n')) }

  /** The file of a list of records. */
  function FileText(rs: seq<Record>): string {
    if rs == [] then "" else FileText(rs[..|rs| - 1]) + Text(rs[|rs| - 1]) + "\n"
  }

  predicate AllStorable(rs: seq<Record>) { forall i :: 0 <= i < |rs| ==> Storable(rs[i]) }

  function NormalizeAll(rs: seq<Record>): (out: seq<Record>)
    ensures |out| == |rs| && forall i :: 0 <= i < |rs| ==> out[i] == Normalize(rs[i])
  {
    seq(|rs|, i requires 0 <= i < |rs| => Normalize(rs[i]))
  }

  // ----- reading back what was written -----

  lemma {:induction false} RecordsConcat(a: seq<string>, b: seq<string>)
    ensures Records(a + b) == Records(a) + Records(b)
  {
    hide Parse;
    if b == [] {
      assert a + b == a;
    } else {
      var n := |b| - 1;
      RecordsConcat(a, b[..n]);
      assert (a + b)[..|a| + n] == a + b[..n] && (a + b)[|a| + n] == b[n];
    }
  }

  lemma RecordsOfOne(line: string)
    ensures Records([line]) == if line != "" && Parse(line).Some? then [Parse(line).value] else []
  {
    assert [line][..0] == [];
  }

  lemma {:induction false} JoinClean(fields: seq<string>, c: char)
    requires fields != [] && c != ':' && forall i :: 0 <= i < |fields| ==> c !in fields[i]
    ensures c !in Join(fields)
  {
    if |fields| > 1 { JoinClean(fields[1..], c); }
  }

  lemma TextIsALine(r: Record)
    requires Storable(r)
    ensures Text(r) != "" && '\n' !in Text(r) && '\0' !in Text(r)
  {
    FieldsClean(r);
    hide Storable;
    JoinClean(FieldsOf(r), '\n');
    JoinClean(FieldsOf(r), '\0');
  }

  /** What is written never holds a NUL. */
  lemma {:induction false} FileTextClean(rs: seq<Record>)
    requires AllStorable(rs)
    ensures '\0' !in FileText(rs)
  {
    if rs != [] {
      hide Storable, Text;
      FileTextClean(rs[..|rs| - 1]);
      TextIsALine(rs[|rs| - 1]);
    }
  }

  lemma RecordsOfNothing()
    ensures Records(Split("", '\n')) == []
  {
  }

  /** The first line of a text and the rest. */
  lemma RecordsOfHead(head: string, tail: string)
    requires '\n' !in head
    ensures Records(Split(head + ['\n'] + tail, '\n')) == Records([head]) + Records(Split(tail, '\n'))
  {
    hide Records, Split;
    SplitAt(head, '\n', tail);
    RecordsConcat([head], Split(tail, '\n'));
  }

  /** Lines of text that end in a newline: splitting what precedes and follows. */
  lemma {:induction false} SplitAppend(a: string, line: string)
    requires '\n' !in line && (a == "" || a[|a| - 1] == '\n')
    ensures Records(Split(a + line + "\n", '\n')) == Records(Split(a, '\n')) + Records([line])
  {
    hide Records, Split;
    if a == "" {
      assert a + line + "\n" == line + ['\n'] + "";
      RecordsOfHead(line, "");
      RecordsOfNothing();
      assert [] + Records([line]) == Records([line]);
    } else {
      var k := FirstAt(a, '\n');
      var head, tail := a[..k], a[k + 1..];
      assert a == head + ['\n'] + tail;
      assert a + line + "\n" == head + ['\n'] + (tail + line + "\n");
      RecordsOfHead(head, tail);
      RecordsOfHead(head, tail + line + "\n");
      SplitAppend(tail, line);
    }
  }

  lemma LineAppended(file: string, r: Record)
    requires Storable(r) && (file == "" || file[|file| - 1] == '\n')
    ensures FileRecords(file + Text(r) + "\n") == FileRecords(file) + [Normalize(r)]
  {
    hide Parse, Text, Split, Normalize, Storable, Records;
    TextIsALine(r);
    LineRoundTrip(r);
    RecordsOfOne(Text(r));
    SplitAppend(file, Text(r));
  }

  lemma FileTextAppend(rs: seq<Record>, r: Record)
    ensures FileText(rs + [r]) == FileText(rs) + Text(r) + "\n"
  {
    assert (rs + [r])[..|rs|] == rs;
  }

  lemma FileTextEnd(rs: seq<Record>)
    ensures FileText(rs) == "" || FileText(rs)[|FileText(rs)| - 1] == '\n'
  {
  }

  lemma RecordWritten(before: seq<Record>, r: Record)
    requires Storable(r)
    ensures FileRecords(FileText(before + [r])) == FileRecords(FileText(before)) + [Normalize(r)]
  {
    hide FileRecords, FileText, Text, Normalize, Storable;
    FileTextAppend(before, r);
    FileTextEnd(before);
    LineAppended(FileText(before), r);
  }

  /** Reading the file of a list of storable records gives the list back, up to the costs legacy lines do not keep. */
  lemma {:induction false} FileRoundTrip(rs: seq<Record>)
    requires AllStorable(rs)
    ensures FileRecords(FileText(rs)) == NormalizeAll(rs)
  {
    if rs == [] {
      RecordsOfNothing();
    } else {
      hide FileRecords, FileText, Normalize, Storable;
      var n := |rs| - 1;
      var before, r := rs[..n], rs[n];
      assert rs == before + [r];
      FileRoundTrip(before);
      RecordWritten(before, r);
      assert NormalizeAll(rs) == NormalizeAll(before) + [Normalize(r)];
    }
  }

  lemma {:induction false} SourceIsStorable(lines: seq<string>)
    requires forall i :: 0 <= i < |lines| ==> '\0' !in lines[i] && '\n' !in lines[i]
    ensures AllStorable(Records(lines))
  {
    if lines != [] {
      var n := |lines| - 1;
      SourceIsStorable(lines[..n]);
      if lines[n] != "" && Parse(lines[n]).Some? { ParsedIsStorable(lines[n]); }
    }
  }

  /** Every record read from a file without NUL bytes can be stored again. */
  lemma FileIsStorable(file: string)
    requires '\0' !in file
    ensures AllStorable(FileRecords(file))
  {
    SplitChars(file, '\n');
    SourceIsStorable(Split(file, '\n'));
  }
}
