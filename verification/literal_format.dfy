/**
 * `literal_format` (gradepy/grade.py): `str.format` with one change in
 * `format_field` — a string value is shown as a quoted, escaped Python
 * literal unless the field's spec ends in `q`, in which case the `q`
 * becomes the ordinary `s` and the value is left alone.
 *
 * The escaping is Python 2's `'string-escape'` codec. How the standard
 * formatter then renders a (value, spec) pair is the `render` parameter.
 */
module LiteralFormat {
  import opened Basics
  import opened Values

  /** Python 2 `str` values are byte strings. */
  predicate IsByteString(s: string) {
    forall k :: 0 <= k < |s| ==> s[k] as int < 256
  }

  function HexDigit(d: nat): (c: char)
    requires d < 16
  {
    if d < 10 then (d + '0' as int) as char else (d - 10 + 'a' as int) as char
  }

  function HexValue(c: char): (r: Option<nat>) {
    if '0' <= c <= '9' then Some(c as int - '0' as int)
    else if 'a' <= c <= 'f' then Some(c as int - 'a' as int + 10)
    else if 'A' <= c <= 'F' then Some(c as int - 'A' as int + 10)
    else None
  }

  /** One byte under `'string-escape'`: backslash and single quote are
      backslash-escaped, tab/newline/carriage return use their letter
      escapes, other bytes below space or from 0x7f up become `\xhh`. */
  function EscapeChar(c: char): string
    requires c as int < 256
  {
    if c == '\\' then "\\\\"
    else if c == '\'' then "\\'"
    else if c == '\t' then "\\t"
    else if c == '\n' then "\\n"
    else if c == '\r' then "\\r"
    else if c as int < 32 || c as int >= 127 then
      "\\x" + [HexDigit(c as int / 16), HexDigit(c as int % 16)]
    else [c]
  }

  function Escape(s: string): string
    requires IsByteString(s)
  {
    if |s| == 0 then "" else EscapeChar(s[0]) + Escape(s[1..])
  }

  /** Reads an escaped string back (the inverse of `Escape`); `None` for a
      dangling or unknown escape. */
  function Unescape(s: string): (r: Option<string>) {
    if |s| == 0 then Some("")
    else if s[0] != '\\' then Prepend(s[0], Unescape(s[1..]))
    else if |s| < 2 then None
    else if s[1] == '\\' then Prepend('\\', Unescape(s[2..]))
    else if s[1] == '\'' then Prepend('\'', Unescape(s[2..]))
    else if s[1] == 't' then Prepend('\t', Unescape(s[2..]))
    else if s[1] == 'n' then Prepend('\n', Unescape(s[2..]))
    else if s[1] == 'r' then Prepend('\r', Unescape(s[2..]))
    else if s[1] == 'x' && |s| >= 4 && HexValue(s[2]).Some? && HexValue(s[3]).Some? then
      Prepend((HexValue(s[2]).value * 16 + HexValue(s[3]).value) as char, Unescape(s[4..]))
    else None
  }

  function Prepend(c: char, r: Option<string>): (res: Option<string>) {
    if r.Some? then Some([c] + r.value) else None
  }

  lemma UnescapeOneChar(c: char, t: string)
    requires c as int < 256
    ensures Unescape(EscapeChar(c) + t) == Prepend(c, Unescape(t))
  {
    var e := EscapeChar(c);
    if c != '\\' && c != '\'' && c != '\t' && c != '\n' && c != '\r' && (c as int < 32 || c as int >= 127) {
      var hi := c as int / 16;
      var lo := c as int % 16;
      assert HexValue(HexDigit(hi)) == Some(hi);
      assert HexValue(HexDigit(lo)) == Some(lo);
      assert (e + t)[4..] == t;
    } else if |e| == 2 {
      assert (e + t)[2..] == t;
    } else {
      assert (e + t)[1..] == t;
    }
  }

  /** Escaping loses nothing: the escaped text reads back as the original. */
  lemma {:induction false} EscapeRoundTrip(s: string)
    requires IsByteString(s)
    ensures Unescape(Escape(s)) == Some(s)
  {
    if |s| > 0 {
      EscapeRoundTrip(s[1..]);
      UnescapeOneChar(s[0], Escape(s[1..]));
      assert [s[0]] + s[1..] == s;
    }
  }

  /** The escaped text is printable ASCII, so the quoted literal is one line. */
  lemma {:induction false} EscapeIsPrintable(s: string)
    requires IsByteString(s)
    ensures forall k :: 0 <= k < |Escape(s)| ==> 32 <= Escape(s)[k] as int < 127
  {
    if |s| > 0 {
      EscapeIsPrintable(s[1..]);
      var e := EscapeChar(s[0]);
      assert forall k :: 0 <= k < |e| ==> 32 <= e[k] as int < 127;
      assert Escape(s) == e + Escape(s[1..]);
    }
  }

  /** Printable text without a backslash or a single quote is left as it
      is. */
  lemma {:induction false} EscapePlain(s: string)
    requires forall k :: 0 <= k < |s| ==> 32 <= s[k] as int < 127 && s[k] != '\\' && s[k] != '\''
    ensures IsByteString(s) && Escape(s) == s
  {
    if |s| > 0 {
      EscapePlain(s[1..]);
      assert s == [s[0]] + s[1..];
    }
  }

  /** The (value, spec) pair `format_field` hands to the standard formatter. */
  datatype FieldArg = FieldArg(value: Value, spec: string)

  predicate ValueIsBytes(v: Value) {
    v.StrV? ==> IsByteString(v.s)
  }

  /** `Template.format_field` inside `literal_format`. */
  function FormatField(v: Value, spec: string): (r: FieldArg)
    requires ValueIsBytes(v)
    ensures |spec| > 0 && spec[|spec| - 1] == 'q' ==>
              r.value == v && |r.spec| == |spec| && r.spec[..|spec| - 1] == spec[..|spec| - 1]
              && r.spec[|spec| - 1] == 's'
    ensures !(|spec| > 0 && spec[|spec| - 1] == 'q') ==> r.spec == spec
    ensures !v.StrV? ==> r.value == v
  {
    if |spec| > 0 && spec[|spec| - 1] == 'q' then FieldArg(v, spec[..|spec| - 1] + "s")
    else if v.StrV? then FieldArg(StrV("'" + Escape(v.s) + "'"), spec)
    else FieldArg(v, spec)
  }

  /** Without a `q`, a string reaches the formatter as a quoted literal from
      which the original string is recovered exactly. */
  lemma QuotedFieldRoundTrip(s: string, spec: string)
    requires IsByteString(s)
    requires !(|spec| > 0 && spec[|spec| - 1] == 'q')
    ensures var q := FormatField(StrV(s), spec).value;
            q.StrV? && |q.s| >= 2 && q.s[0] == '\'' && q.s[|q.s| - 1] == '\''
            && Unescape(q.s[1..|q.s| - 1]) == Some(s)
  {
    var e := Escape(s);
    assert ("'" + e + "'")[1..|e| + 1] == e;
    EscapeRoundTrip(s);
  }

  /** A parsed format string: literal text and `{name:spec}` fields. */
  datatype Segment = Lit(text: string) | Field(name: string, spec: string)

  /** `literal_format(fmt, **env)`: `None` when a field names a key missing
      from `env` (Python's `KeyError`) or when the formatter rejects a
      field's value under its spec (Python's `ValueError`). `render` is the
      standard formatter's `format_field`, `None` where it raises. */
  function Format(t: seq<Segment>, env: map<string, Value>, render: FieldArg -> Option<string>): (r: Option<string>)
    requires forall n :: n in env ==> ValueIsBytes(env[n])
    ensures r.Some? <==> forall k :: 0 <= k < |t| && t[k].Field? ==>
                           t[k].name in env && render(FormatField(env[t[k].name], t[k].spec)).Some?
  {
    if |t| == 0 then Some("")
    else
      var rest := Format(t[1..], env, render);
      assert forall k :: 1 <= k < |t| ==> t[k] == t[1..][k - 1];
      match t[0]
      case Lit(text) => if rest.Some? then Some(text + rest.value) else None
      case Field(name, spec) =>
        if name in env && rest.Some? && render(FormatField(env[name], spec)).Some? then
          Some(render(FormatField(env[name], spec)).value + rest.value)
        else None
  }

  /** Enough of Python 2's `format(value, spec)` for the examples below: a
      `str` under no spec or `s` is itself, and a non-negative `int` under no
      spec or `d` is its digits. Anything else is outside this example
      renderer and gives `None`. */
  function ExampleRender(a: FieldArg): (r: Option<string>) {
    match a.value
    case StrV(s) => if a.spec == "" || a.spec == "s" then Some(s) else None
    case IntV(i) => if i >= 0 && (a.spec == "" || a.spec == "d") then Some(NatToDigits(i)) else None
    case _ => None
  }

  /** The docstring of `literal_format`: a string field is shown quoted. */
  lemma FormatQuotesString()
    ensures Format([Lit("string: "), Field("foo", "")], map["foo" := StrV("bar")], ExampleRender)
            == Some("string: 'bar'")
  {
    var t := [Lit("string: "), Field("foo", "")];
    var env := map["foo" := StrV("bar")];
    EscapePlain("bar");
    assert "'" + "bar" + "'" == "'bar'";
    assert FormatField(StrV("bar"), "") == FieldArg(StrV("'bar'"), "");
    assert t[1..] == [Field("foo", "")] && t[1..][1..] == [];
    assert Format(t[1..], env, ExampleRender) == Some("'bar'" + "");
    assert "string: " + ("'bar'" + "") == "string: 'bar'";
  }

  /** The docstring of `literal_format`: the `q` spec drops the quotes. */
  lemma FormatQSpecPlain()
    ensures Format([Lit("string: "), Field("foo", "q")], map["foo" := StrV("bar")], ExampleRender)
            == Some("string: bar")
  {
    var t := [Lit("string: "), Field("foo", "q")];
    var env := map["foo" := StrV("bar")];
    assert FormatField(StrV("bar"), "q") == FieldArg(StrV("bar"), "s");
    assert t[1..] == [Field("foo", "q")] && t[1..][1..] == [];
    assert Format(t[1..], env, ExampleRender) == Some("bar" + "");
    assert "string: " + ("bar" + "") == "string: bar";
  }

  /** `q` becomes `s` whatever the value, so `{n:q}` with an `int` fails the
      way `{n:s}` does in the standard formatter. */
  lemma FormatQSpecOnIntFails()
    ensures Format([Field("n", "q")], map["n" := IntV(5)], ExampleRender).None?
  {
    assert FormatField(IntV(5), "q") == FieldArg(IntV(5), "s");
  }
}
