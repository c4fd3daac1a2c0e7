/**
 * CSV files as the Python code sees them through the `csv` module: a file
 * is a present/absent flag and the list of its parsed lines; quoting and
 * escaping are outside the model.
 */
module CsvStore {
  import opened Wrappers

  /** What opening a file for reading yields. */
  datatype FileView = Absent | Unreadable | Readable(lines: seq<seq<string>>)

  /** One file on disk. `readable` is false when opening or decoding it raises. */
  class CsvFile {
    var present: bool
    var readable: bool
    var rows: seq<seq<string>>

    ghost predicate Valid()
      reads this
    {
      !present ==> rows == []
    }

    constructor Missing()
      ensures Valid() && !present && readable && rows == []
    {
      present, readable, rows := false, true, [];
    }

    constructor Holding(lines: seq<seq<string>>, canRead: bool)
      ensures Valid() && present && readable == canRead && rows == lines
    {
      present, readable, rows := true, canRead, lines;
    }

    function View(): (v: FileView)
      reads this
      ensures v.Absent? <==> !present
      ensures v.Readable? ==> v.lines == rows
    {
      if !present then Absent else if !readable then Unreadable else Readable(rows)
    }

    /** What the file holds once it is known to exist: its lines, or just
        `header` when it still has to be created. */
    function Base(header: seq<string>): seq<seq<string>>
      reads this
    {
      if present then rows else [header]
    }

    /** `open(path, "a")` and one `writerow`: the file is created when missing. */
    method Append(row: seq<string>)
      requires Valid()
      modifies this
      ensures Valid() && present
      ensures readable == (old(readable) || !old(present))
      ensures rows == old(rows) + [row]
    {
      if !present {
        readable := true;
      }
      present := true;
      rows := rows + [row];
    }

    /** The lazy-header idiom: `header` is written only when the file did not
        exist, then `row` is appended. */
    method AppendWithHeader(header: seq<string>, row: seq<string>)
      requires Valid()
      modifies this
      ensures Valid() && present
      ensures readable == (old(readable) || !old(present))
      ensures rows == old(Base(header)) + [row]
    {
      if !present {
        Append(header);
      }
      Append(row);
    }
  }

  /** The lines of a file after `n` lazy-header appends of `added`. */
  function AfterAppends(present: bool, rows: seq<seq<string>>, header: seq<string>,
                        added: seq<seq<string>>): (r: seq<seq<string>>)
    ensures added == [] ==> r == rows
    ensures added != [] ==> |r| >= |added| && r[|r| - |added|..] == added
  {
    if added == [] then rows else (if present then rows else [header]) + added
  }

  /** A value looked up in a `csv.DictReader` row: key not in the header
      (`get` gives its default), key in the header but the line too short
      (the row holds `None`), or the text of the cell. */
  datatype Cell = Missing | NoneValue | Text(text: string)

  predicate Truthy(c: Cell) {
    c.Text? && c.text != ""
  }

  function TextOr(c: Cell, default: string): string {
    if c.Text? then c.text else default
  }

  /** The last position of `key` in `header`, or -1. */
  function LastIndexOf(header: seq<string>, key: string): (k: int)
    ensures -1 <= k < |header|
    ensures k >= 0 ==> header[k] == key && forall j :: k < j < |header| ==> header[j] != key
    ensures k < 0 <==> key !in header
  {
    if header == [] then -1
    else if header[|header| - 1] == key then |header| - 1
    else LastIndexOf(header[..|header| - 1], key)
  }

  /** `DictReader` builds each row as `dict(zip(header, line))` and fills the
      header names past the end of the line with `None`, so a repeated header
      name takes the cell of its last occurrence. */
  function Field(header: seq<string>, line: seq<string>, key: string): (c: Cell)
    ensures c.Missing? <==> key !in header
  {
    var k := LastIndexOf(header, key);
    if k < 0 then Missing else if k < |line| then Text(line[k]) else NoneValue
  }

  /** `DictReader.fieldnames`: the first line, `None` for an empty file. */
  function Header(lines: seq<seq<string>>): Option<seq<string>> {
    if lines == [] then None else Some(lines[0])
  }

  /** The lines `DictReader` yields as rows: those after the header, with
      blank lines skipped. */
  function Records(lines: seq<seq<string>>): (r: seq<seq<string>>)
    ensures forall i :: 0 <= i < |r| ==> r[i] != []
  {
    if lines == [] then [] else NonBlank(lines[1..])
  }

  function NonBlank(lines: seq<seq<string>>): (r: seq<seq<string>>)
    ensures |r| <= |lines|
    ensures forall i :: 0 <= i < |r| ==> r[i] != [] && r[i] in lines
    ensures forall l :: l in lines && l != [] ==> l in r
    ensures forall l :: l != [] ==> multiset(r)[l] == multiset(lines)[l]
  {
    if lines == [] then []
    else
      var rest := NonBlank(lines[..|lines| - 1]);
      var last := lines[|lines| - 1];
      assert lines == lines[..|lines| - 1] + [last];
      if last == [] then rest else rest + [last]
  }
}
