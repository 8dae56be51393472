/**
 * OpenCSV's `CSVWriter.writeNext` with its defaults: separator ',', quote '"', escape '"', line end
 * "\n", every field quoted. A quote inside a field is written twice; a null field is written as
 * nothing at all, without quotes. A reader for that text comes with it, and the round trip is proved.
 */
module Csv {
  import opened Wrappers
  import opened Sequences

  /** One field of a line; `None` is a null array element. */
  type Field = Option<string>

  /** `processLine`: every '"' doubled, everything else as is. */
  function Escape(s: string): (r: string)
    ensures |r| >= |s|
  {
    if s == [] then ""
    else (if s[0] == '"' then "\"\"" else [s[0]]) + Escape(s[1..])
  }

  /** A field with no quote in it is written as it is. */
  lemma {:induction false} EscapeWithoutQuotes(s: string)
    requires '"' !in s
    ensures Escape(s) == s
  {
    if s != [] {
      assert '"' !in s[1..] by {
        assert forall i :: 0 <= i < |s[1..]| ==> s[1..][i] == s[i + 1];
      }
      EscapeWithoutQuotes(s[1..]);
      assert [s[0]] + s[1..] == s;
    }
  }

  function RenderField(f: Field): string {
    match f
    case None => ""
    case Some(s) => "\"" + Escape(s) + "\""
  }

  /** The fields joined by the separator. */
  function RenderFields(fs: seq<Field>): string {
    if fs == [] then ""
    else if |fs| == 1 then RenderField(fs[0])
    else RenderField(fs[0]) + "," + RenderFields(fs[1..])
  }

  /** One `writeNext` call: the fields, then the line end. */
  function RenderLine(fs: seq<Field>): string {
    RenderFields(fs) + "\n"
  }

  /** The text of successive `writeNext` calls, one per row, in order. */
  function RenderDocument(rows: seq<seq<Field>>): string {
    if rows == [] then "" else RenderDocument(rows[..|rows| - 1]) + RenderLine(rows[|rows| - 1])
  }

  /** The text of the first k + 1 rows is that of the first k followed by row k. */
  lemma RenderDocumentStep(rows: seq<seq<Field>>, k: nat)
    requires k < |rows|
    ensures RenderDocument(rows[..k + 1]) == RenderDocument(rows[..k]) + RenderLine(rows[k])
  {
    assert rows[..k + 1][..k] == rows[..k];
  }

  /** Reads the rest of a quoted field up to its closing quote; "" stands for one '"'. */
  function ParseQuoted(s: string): (r: Option<(string, string)>)
    ensures r.Some? ==> |r.value.1| < |s|
    decreases |s|
  {
    if s == [] then None
    else if s[0] == '"' then
      if |s| > 1 && s[1] == '"' then
        match ParseQuoted(s[2..])
        case None => None
        case Some((text, rest)) => Some(("\"" + text, rest))
      else Some(("", s[1..]))
    else
      match ParseQuoted(s[1..])
      case None => None
      case Some((text, rest)) => Some(([s[0]] + text, rest))
  }

  /** One field: a quoted one, or an empty unquoted one, which is how a null was written. */
  function ParseField(s: string): (r: Option<(Field, string)>)
    ensures r.Some? ==> |r.value.1| <= |s|
  {
    if s != [] && s[0] == '"' then
      match ParseQuoted(s[1..])
      case None => None
      case Some((text, rest)) => Some((Some(text), rest))
    else Some((None, s))
  }

  /** The fields of one line, and the text after its line end. */
  function ParseLine(s: string): (r: Option<(seq<Field>, string)>)
    ensures r.Some? ==> |r.value.1| < |s|
    decreases |s|
  {
    match ParseField(s)
    case None => None
    case Some((f, rest)) =>
      if rest != [] && rest[0] == ',' then
        match ParseLine(rest[1..])
        case None => None
        case Some((fs, after)) => Some(([f] + fs, after))
      else if rest != [] && rest[0] == '\n' then Some(([f], rest[1..]))
      else None
  }

  /** All lines of a text. */
  function ParseDocument(s: string): Option<seq<seq<Field>>>
    decreases |s|
  {
    if s == [] then Some([])
    else
      match ParseLine(s)
      case None => None
      case Some((fs, rest)) =>
        match ParseDocument(rest)
        case None => None
        case Some(rows) => Some([fs] + rows)
  }

  lemma {:induction false} ParseQuotedOfEscape(x: string, t: string)
    requires t == [] || t[0] != '"'
    ensures ParseQuoted(Escape(x) + "\"" + t) == Some((x, t))
    decreases |x|
  {
    var s := Escape(x) + "\"" + t;
    if x == [] {
      assert s == "\"" + t;
      assert s[1..] == t;
    } else if x[0] == '"' {
      assert s == "\"\"" + (Escape(x[1..]) + "\"" + t);
      assert s[2..] == Escape(x[1..]) + "\"" + t;
      ParseQuotedOfEscape(x[1..], t);
      assert "\"" + x[1..] == x;
    } else {
      assert s == [x[0]] + (Escape(x[1..]) + "\"" + t);
      assert s[1..] == Escape(x[1..]) + "\"" + t;
      ParseQuotedOfEscape(x[1..], t);
      assert [x[0]] + x[1..] == x;
    }
  }

  lemma ParseFieldOfRender(f: Field, t: string)
    requires t != [] && (t[0] == ',' || t[0] == '\n')
    ensures ParseField(RenderField(f) + t) == Some((f, t))
  {
    if f.Some? {
      var e := Escape(f.value);
      var body := e + "\"" + t;
      AppendAssociates("\"" + e, "\"", t);
      AppendAssociates("\"", e, "\"" + t);
      AppendAssociates(e, "\"", t);
      assert RenderField(f) + t == "\"" + body;
      assert ("\"" + body)[1..] == body;
      ParseQuotedOfEscape(f.value, t);
    } else {
      assert RenderField(f) + t == t;
    }
  }

  /** A rendered line is its first field, then either its line end or a separator and the rest. */
  lemma RenderLineShape(fs: seq<Field>)
    requires fs != []
    ensures |fs| == 1 ==> RenderLine(fs) == RenderField(fs[0]) + "\n"
    ensures |fs| > 1 ==> RenderLine(fs) == RenderField(fs[0]) + ("," + RenderLine(fs[1..]))
  {
  }

  lemma ParseLineLast(s: string, f: Field, t: string)
    requires ParseField(s) == Some((f, "\n" + t))
    ensures ParseLine(s) == Some(([f], t))
  {
    assert ("\n" + t)[1..] == t;
  }

  lemma ParseLineNext(s: string, f: Field, u: string, fs: seq<Field>, t: string)
    requires ParseField(s) == Some((f, "," + u))
    requires ParseLine(u) == Some((fs, t))
    ensures ParseLine(s) == Some(([f] + fs, t))
  {
    assert ("," + u)[1..] == u;
  }

  lemma ParseLineOfOneField(f: Field, t: string)
    ensures ParseLine(RenderLine([f]) + t) == Some(([f], t))
  {
    RenderLineShape([f]);
    var s := RenderField(f) + ("\n" + t);
    assert RenderLine([f]) + t == s;
    ParseFieldOfRender(f, "\n" + t);
    ParseLineLast(s, f, t);
  }

  lemma ParseLineOfMoreFields(fs: seq<Field>, t: string)
    requires |fs| > 1 && ParseLine(RenderLine(fs[1..]) + t) == Some((fs[1..], t))
    ensures ParseLine(RenderLine(fs) + t) == Some((fs, t))
  {
    RenderLineShape(fs);
    var first := RenderField(fs[0]);
    var rest := RenderLine(fs[1..]);
    var u := rest + t;
    AppendAssociates(first, "," + rest, t);
    AppendAssociates(",", rest, t);
    var s := first + ("," + u);
    assert RenderLine(fs) + t == s;
    ParseFieldOfRender(fs[0], "," + u);
    ParseLineNext(s, fs[0], u, fs[1..], t);
    assert [fs[0]] + fs[1..] == fs;
  }

  lemma {:induction false} ParseLineOfRender(fs: seq<Field>, t: string)
    requires fs != []
    ensures ParseLine(RenderLine(fs) + t) == Some((fs, t))
    decreases |fs|
  {
    if |fs| == 1 {
      ParseLineOfOneField(fs[0], t);
      assert [fs[0]] == fs;
    } else {
      ParseLineOfRender(fs[1..], t);
      ParseLineOfMoreFields(fs, t);
    }
  }

  lemma {:induction false} RenderDocumentCons(row: seq<Field>, rows: seq<seq<Field>>)
    ensures RenderDocument([row] + rows) == RenderLine(row) + RenderDocument(rows)
    decreases |rows|
  {
    var all := [row] + rows;
    if rows == [] {
      assert all[..0] == [];
    } else {
      var k := |rows| - 1;
      assert all[..|all| - 1] == [row] + rows[..k];
      assert all[|all| - 1] == rows[k];
      RenderDocumentCons(row, rows[..k]);
      AppendAssociates(RenderLine(row), RenderDocument(rows[..k]), RenderLine(rows[k]));
    }
  }

  /**
   * Every document whose lines each have at least one field reads back as exactly those lines:
   * the writer loses nothing and adds nothing, whatever the fields contain (quotes, commas, line ends).
   */
  lemma {:induction false} DocumentRoundTrip(rows: seq<seq<Field>>)
    requires forall k :: 0 <= k < |rows| ==> rows[k] != []
    ensures ParseDocument(RenderDocument(rows)) == Some(rows)
    decreases |rows|
  {
    if rows != [] {
      RenderDocumentCons(rows[0], rows[1..]);
      assert [rows[0]] + rows[1..] == rows;
      ParseLineOfRender(rows[0], RenderDocument(rows[1..]));
      DocumentRoundTrip(rows[1..]);
    }
  }
}
