/**
 * The side artifact `createCsvFileOrThrow` writes for each record: its file
 * name inside the vault directory and its two-line content. Both are plain
 * string interpolation, where Kotlin prints a null field as `null`. The clock
 * reading (`HHmmss`) is a parameter. The parsers below are the partners that
 * read a name or a content back.
 */
module Csv {
  import opened Optional
  import opened Remote

  /** Kotlin's `"${x}"` for a `String?`: the text itself, or the four letters `null`. */
  function Show(o: Option<string>): string {
    match o
    case Some(s) => s
    case None => "null"
  }

  /** `"${source_app}_${id}_$time.csv"` */
  function FileName(d: RemoteData, time: string): (r: string)
    ensures |r| == |Show(d.sourceApp)| + |Show(d.id)| + |time| + 6
    ensures r[..|Show(d.sourceApp)|] == Show(d.sourceApp) && r[|r| - 4..] == ".csv"
  {
    Show(d.sourceApp) + "_" + Show(d.id) + "_" + time + ".csv"
  }

  /**
   * The artifact's path: the vault directory `dir`, a `/`, then the file
   * name, joined as plain text (java.io.File's normalisation of the joined
   * path is not modelled). When no printed part of the name holds a `/`,
   * nothing after the separator does, so the file lies directly in `dir`.
   */
  function ArtifactPath(dir: string, d: RemoteData, time: string): (r: string)
    ensures |r| == |dir| + 1 + |FileName(d, time)|
    ensures r[..|dir|] == dir && r[|dir|] == '/' && r[|dir| + 1..] == FileName(d, time)
    ensures '/' !in Show(d.sourceApp) && '/' !in Show(d.id) && '/' !in time ==> '/' !in r[|dir| + 1..]
  {
    dir + "/" + FileName(d, time)
  }

  const HeaderLine: string := "Header,Message,Time\n"

  /** `"x"`: a field between double quotes. */
  function Quoted(x: string): string {
    "\"" + x + "\""
  }

  /** The header line, then the three fields each wrapped in double quotes; no escaping, no final newline. */
  function Content(d: RemoteData): (r: string)
    ensures |r| == |HeaderLine| + |Show(d.header)| + |Show(d.payload)| + |Show(d.createdAt)| + 8
    ensures r[..|HeaderLine|] == HeaderLine && r[|r| - 1] == '"'
  {
    HeaderLine + Quoted(Show(d.header)) + "," + Quoted(Show(d.payload)) + "," + Quoted(Show(d.createdAt))
  }

  /** Splits at the first `sep`. */
  function SplitAt(s: string, sep: char): (r: Option<(string, string)>)
    ensures r.Some? ==> s == r.value.0 + [sep] + r.value.1 && sep !in r.value.0
    ensures r.None? ==> sep !in s
  {
    if s == [] then None
    else if s[0] == sep then Some(([], s[1..]))
    else match SplitAt(s[1..], sep)
      case None => None
      case Some(parts) => Some(([s[0]] + parts.0, parts.1))
  }

  lemma {:induction false} SplitAtJoin(a: string, b: string, sep: char)
    requires sep !in a
    ensures SplitAt(a + [sep] + b, sep) == Some((a, b))
  {
    var s := a + [sep] + b;
    if a == [] {
      assert s[1..] == b;
    } else {
      assert s[1..] == a[1..] + [sep] + b;
      SplitAtJoin(a[1..], b, sep);
      assert [a[0]] + a[1..] == a;
    }
  }

  /** Splits at the last `sep`. */
  function SplitAtLast(s: string, sep: char): (r: Option<(string, string)>)
    ensures r.Some? ==> s == r.value.0 + [sep] + r.value.1 && sep !in r.value.1
    ensures r.None? ==> sep !in s
    decreases |s|
  {
    if s == [] then None
    else
      var n := |s| - 1;
      assert s == s[..n] + [s[n]];
      if s[n] == sep then Some((s[..n], []))
      else match SplitAtLast(s[..n], sep)
        case None => None
        case Some(parts) => Some((parts.0, parts.1 + [s[n]]))
  }

  lemma {:induction false} SplitAtLastJoin(a: string, b: string, sep: char)
    requires sep !in b
    ensures SplitAtLast(a + [sep] + b, sep) == Some((a, b))
    decreases |b|
  {
    var s := a + [sep] + b;
    var n := |s| - 1;
    if b == [] {
      assert s[..n] == a;
    } else {
      var m := |b| - 1;
      assert s[n] == b[m];
      assert s[..n] == a + [sep] + b[..m];
      SplitAtLastJoin(a, b[..m], sep);
      assert b[..m] + [b[m]] == b;
    }
  }

  /**
   * Reads `source_id_HHMMSS.csv` back into its three parts. The event id is a UUID, which has no
   * `_`, so the id is what follows the last `_` before the clock reading; the source label is the rest.
   */
  function ParseFileName(name: string): Option<(string, string, string)> {
    if |name| < 12 || name[|name| - 4..] != ".csv" || name[|name| - 11] != '_' then None
    else match SplitAtLast(name[..|name| - 11], '_')
      case None => None
      case Some(parts) => Some((parts.0, parts.1, name[|name| - 10..|name| - 4]))
  }

  /**
   * The file name determines the record's source label, id and clock reading, provided the event
   * id has no `_` (a UUID has none) and the clock reading has the six characters of `HHmmss`.
   */
  lemma FileNameRoundTrip(d: RemoteData, time: string)
    requires '_' !in Show(d.id) && |time| == 6
    ensures ParseFileName(FileName(d, time)) == Some((Show(d.sourceApp), Show(d.id), time))
  {
    var src, id := Show(d.sourceApp), Show(d.id);
    var name := FileName(d, time);
    assert name == (src + "_" + id) + "_" + time + ".csv";
    var n := |name|;
    assert name[n - 4..] == ".csv";
    assert name[n - 11] == '_';
    assert name[n - 10..n - 4] == time;
    assert name[..n - 11] == src + ['_'] + id;
    SplitAtLastJoin(src, id, '_');
  }

  /** Under the same conditions, records that differ in source, id or second get different files. */
  lemma FileNamesDistinct(d1: RemoteData, t1: string, d2: RemoteData, t2: string)
    requires '_' !in Show(d1.id) && |t1| == 6
    requires '_' !in Show(d2.id) && |t2| == 6
    requires (Show(d1.sourceApp), Show(d1.id), t1) != (Show(d2.sourceApp), Show(d2.id), t2)
    ensures FileName(d1, t1) != FileName(d2, t2)
  {
    FileNameRoundTrip(d1, t1);
    FileNameRoundTrip(d2, t2);
  }

  /** Reads one quoted field off the front of `s`, up to the next double quote. */
  function ParseField(s: string): Option<(string, string)> {
    if s == [] || s[0] != '"' then None else SplitAt(s[1..], '"')
  }

  lemma FieldRoundTrip(x: string, rest: string)
    requires '"' !in x
    ensures ParseField(Quoted(x) + rest) == Some((x, rest))
  {
    var s := Quoted(x) + rest;
    assert s[1..] == x + ['"'] + rest;
    SplitAtJoin(x, rest, '"');
  }

  /** Reads a data row `"h","p","t"` back. */
  function ParseRow(row: string): Option<(string, string, string)> {
    match ParseField(row)
    case None => None
    case Some(f1) =>
      if f1.1 == [] || f1.1[0] != ',' then None
      else match ParseField(f1.1[1..])
        case None => None
        case Some(f2) =>
          if f2.1 == [] || f2.1[0] != ',' then None
          else match ParseField(f2.1[1..])
            case None => None
            case Some(f3) => if f3.1 == [] then Some((f1.0, f2.0, f3.0)) else None
  }

  /** Reads an artifact back: the header line, then one data row. */
  function ParseContent(c: string): Option<(string, string, string)> {
    if |c| < |HeaderLine| || c[..|HeaderLine|] != HeaderLine then None
    else ParseRow(c[|HeaderLine|..])
  }

  lemma RowRoundTrip(h: string, p: string, t: string)
    requires '"' !in h && '"' !in p && '"' !in t
    ensures ParseRow(Quoted(h) + "," + Quoted(p) + "," + Quoted(t)) == Some((h, p, t))
  {
    var r2 := "," + Quoted(t);
    var r1 := "," + Quoted(p) + r2;
    assert Quoted(h) + "," + Quoted(p) + "," + Quoted(t) == Quoted(h) + r1;
    FieldRoundTrip(h, r1);
    assert r1[1..] == Quoted(p) + r2;
    FieldRoundTrip(p, r2);
    assert r2[1..] == Quoted(t) + [];
    FieldRoundTrip(t, []);
  }

  /**
   * The artifact gives back the header, payload and timestamp it was written from, as printed
   * (a null as `null`), as long as none of them contains a double quote: quotes are not escaped.
   */
  lemma ContentRoundTrip(d: RemoteData)
    requires '"' !in Show(d.header) && '"' !in Show(d.payload) && '"' !in Show(d.createdAt)
    ensures ParseContent(Content(d)) == Some((Show(d.header), Show(d.payload), Show(d.createdAt)))
  {
    var h, p, t := Show(d.header), Show(d.payload), Show(d.createdAt);
    var row := Quoted(h) + "," + Quoted(p) + "," + Quoted(t);
    assert Content(d) == HeaderLine + row;
    assert Content(d)[..|HeaderLine|] == HeaderLine;
    assert Content(d)[|HeaderLine|..] == row;
    RowRoundTrip(h, p, t);
  }

  /** The artifact is exactly two lines: the newline ending the header line is its only one. */
  lemma ContentIsTwoLines(d: RemoteData)
    requires '\n' !in Show(d.header) && '\n' !in Show(d.payload) && '\n' !in Show(d.createdAt)
    ensures var c := Content(d);
      c[..|HeaderLine|] == HeaderLine && '\n' !in c[|HeaderLine|..] && c[|c| - 1] == '"'
  {
    var h, p, t := Show(d.header), Show(d.payload), Show(d.createdAt);
    var row := Quoted(h) + "," + Quoted(p) + "," + Quoted(t);
    assert Content(d) == HeaderLine + row;
    assert Content(d)[|HeaderLine|..] == row;
    assert forall k :: 0 <= k < |row| ==> row[k] == '"' || row[k] == ',' || row[k] in h || row[k] in p || row[k] in t;
  }
}
