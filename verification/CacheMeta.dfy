/** The metadata file of a cached body: four key=value lines. */
module CacheMeta {
  import opened Common
  import opened Decimal

  datatype CacheMeta = CacheMeta(url: string, etag: string, lastModified: string, contentLength: Long)
  {
    predicate HasValidators() { etag != "" || lastModified != "" }
  }

  const BLANK: CacheMeta := CacheMeta("", "", "", -1)

  function Serialize(m: CacheMeta): string {
    Line("url", m.url) + "\n" + (Line("etag", m.etag) + "\n" + (Line("last_modified", m.lastModified) + "\n" +
    (Line("content_length", Print(m.contentLength)) + "\n" + "")))
  }

  function Line(key: string, value: string): string { key + "=" + value }

  /** The position of the first `c`, or the length. */
  function Find(s: string, c: char): (n: nat)
    ensures n <= |s| && (n < |s| ==> s[n] == c) && forall i :: 0 <= i < n ==> s[i] != c
  {
    if s == [] || s[0] == c then 0 else 1 + Find(s[1..], c)
  }

  /** A carriage return at the end of the line is dropped. */
  function Strip(line: string): string {
    if line != [] && line[|line| - 1] == '\r' then line[..|line| - 1] else line
  }

  function ReadLine(line: string, m: CacheMeta): CacheMeta {
    var stripped := Strip(line);
    var eq := Find(stripped, '=');
    if eq == |stripped| then m else SetField(m, stripped[..eq], stripped[eq + 1..])
  }

  function SetField(m: CacheMeta, key: string, value: string): CacheMeta {
    if key == "url" then m.(url := value)
    else if key == "etag" then m.(etag := value)
    else if key == "last_modified" then m.(lastModified := value)
    else if key == "content_length" then m.(contentLength := Read(value))
    else m
  }

  function ReadLines(text: string, m: CacheMeta): CacheMeta
    decreases |text|
  {
    if text == [] then m
    else
      var end := Find(text, '\n');
      var after := ReadLine(text[..end], m);
      if end == |text| then after else ReadLines(text[end + 1..], after)
  }

  function Parse(text: string): Option<CacheMeta> {
    var m := ReadLines(text, BLANK);
    if m.url == "" && m.etag == "" && m.lastModified == "" then None else Some(m)
  }

  /** The method that reads the file, line by line. */
  method ReadMeta(text: string) returns (meta: Option<CacheMeta>)
    ensures meta == Parse(text)
  {
    var m := BLANK;
    var rest := text;
    while rest != []
      invariant ReadLines(rest, m) == ReadLines(text, BLANK)
      decreases |rest|
    {
      var end := Find(rest, '\n');
      m := ReadLine(rest[..end], m);
      rest := if end == |rest| then [] else rest[end + 1..];
    }
    if m.url == "" && m.etag == "" && m.lastModified == "" {
      return None;
    }
    return Some(m);
  }

  predicate OneLine(s: string) { '\n' !in s }

  /** A value that survives as one line: no line feed, no carriage return at the end. */
  predicate Plain(s: string) {
    OneLine(s) && (s != [] ==> s[|s| - 1] != '\r')
  }

  lemma FindAfter(s: string, c: char, rest: string)
    requires c !in s
    ensures Find(s + [c] + rest, c) == |s|
  {
    var all := s + [c] + rest;
    assert all[|s|] == c;
    forall i | 0 <= i < |s| ensures all[i] != c { assert all[i] == s[i]; }
  }

  /** One line of the file, split off. */
  lemma LineSplits(line: string, rest: string, m: CacheMeta)
    requires OneLine(line)
    ensures ReadLines(line + "\n" + rest, m) == ReadLines(rest, ReadLine(line, m))
  {
    FindAfter(line, '\n', rest);
    var all := line + "\n" + rest;
    assert all[..|line|] == line && all[|line| + 1..] == rest;
  }

  lemma StrippedLine(key: string, value: string)
    ensures Strip(Line(key, value)) == Line(key, Strip(value))
  {
  }

  lemma LineParts(key: string, value: string)
    requires '=' !in key
    ensures var line := Line(key, value);
            Find(line, '=') == |key| < |line| && line[..|key|] == key && line[|key| + 1..] == value
  {
    var line := Line(key, value);
    FindAfter(key, '=', value);
    assert line == key + ['='] + value;
    assert line[..|key|] == key && line[|key| + 1..] == value;
  }

  /** One line of a key and a value is read as that key, with a trailing carriage return
      of the value dropped. */
  lemma FieldReads(key: string, value: string, rest: string, m: CacheMeta)
    requires '=' !in key && OneLine(key) && OneLine(value)
    ensures ReadLines(Line(key, value) + "\n" + rest, m) == ReadLines(rest, SetField(m, key, Strip(value)))
  {
    assert OneLine(Line(key, value));
    hide Line, Strip, SetField, ReadLines;
    LineSplits(Line(key, value), rest, m);
    StrippedLine(key, value);
    LineParts(key, Strip(value));
  }

  /** Every one-line metadata reads back with its trailing carriage returns dropped. */
  lemma ReadsBack(m: CacheMeta)
    requires OneLine(m.url) && OneLine(m.etag) && OneLine(m.lastModified)
    ensures ReadLines(Serialize(m), BLANK) ==
            CacheMeta(Strip(m.url), Strip(m.etag), Strip(m.lastModified), m.contentLength)
  {
    hide ReadLines, Strip, Line, Print;
    var number := Print(m.contentLength);
    PrintIsPlain(m.contentLength);
    ReadPrint(m.contentLength);
    var t4 := Line("content_length", number) + "\n" + "";
    var t3 := Line("last_modified", m.lastModified) + "\n" + t4;
    var t2 := Line("etag", m.etag) + "\n" + t3;
    var m1 := SetField(BLANK, "url", Strip(m.url));
    var m2 := SetField(m1, "etag", Strip(m.etag));
    var m3 := SetField(m2, "last_modified", Strip(m.lastModified));
    FieldReads("url", m.url, t2, BLANK);
    FieldReads("etag", m.etag, t3, m1);
    FieldReads("last_modified", m.lastModified, t4, m2);
    FieldReads("content_length", number, "", m3);
    NothingToRead(SetField(m3, "content_length", number));
  }

  /** A line sets the field it names, whatever the other lines are: any other line is skipped,
      and of two lines for one field the later counts. */
  lemma LineSets(value: string, rest: string, m: CacheMeta)
    requires OneLine(value)
    ensures var v := if value != "" && value[|value| - 1] == '\r' then value[..|value| - 1] else value;
            && ReadLines("url" + "=" + value + "\n" + rest, m) == ReadLines(rest, m.(url := v))
            && ReadLines("etag" + "=" + value + "\n" + rest, m) == ReadLines(rest, m.(etag := v))
            && ReadLines("last_modified" + "=" + value + "\n" + rest, m) == ReadLines(rest, m.(lastModified := v))
            && ReadLines("content_length" + "=" + value + "\n" + rest, m) ==
               ReadLines(rest, m.(contentLength := Read(v)))
  {
    hide ReadLines, Read;
    FieldReads("url", value, rest, m);
    FieldReads("etag", value, rest, m);
    FieldReads("last_modified", value, rest, m);
    FieldReads("content_length", value, rest, m);
  }

  lemma OtherLineSkipped(key: string, value: string, rest: string, m: CacheMeta)
    requires OneLine(key) && OneLine(value) && '=' !in key
    ensures key !in {"url", "etag", "last_modified", "content_length"} ==>
              ReadLines(key + "=" + value + "\n" + rest, m) == ReadLines(rest, m)
    ensures ReadLines(key + "\n" + rest, m) == ReadLines(rest, m)
  {
    hide ReadLines, Read;
    FieldReads(key, value, rest, m);
    LineSplits(key, rest, m);
  }

  lemma NothingToRead(m: CacheMeta)
    ensures ReadLines("", m) == m
  {
  }

  lemma PrintIsPlain(n: Long)
    ensures Plain(Print(n)) && Strip(Print(n)) == Print(n)
  {
  }

  predicate AllOneLine(m: CacheMeta) {
    OneLine(m.url) && OneLine(m.etag) && OneLine(m.lastModified)
  }

  lemma ReadLineOneLine(line: string, m: CacheMeta)
    requires OneLine(line) && AllOneLine(m)
    ensures AllOneLine(ReadLine(line, m))
  {
  }

  lemma {:induction false} ReadsOneLines(text: string, m: CacheMeta)
    requires AllOneLine(m)
    ensures AllOneLine(ReadLines(text, m))
    decreases |text|
  {
    if text != [] {
      var end := Find(text, '\n');
      ReadLineOneLine(text[..end], m);
      if end < |text| { ReadsOneLines(text[end + 1..], ReadLine(text[..end], m)); }
    }
  }

  /** A line is plain exactly when stripping it changes nothing. */
  lemma StripsPlain(s: string)
    ensures Plain(s) <==> OneLine(s) && Strip(s) == s
  {
    hide OneLine;
  }

  /** Written metadata reads back as it was exactly when it is not blank and each of its
      strings is plain. */
  lemma RoundTrip(m: CacheMeta)
    ensures Parse(Serialize(m)) == Some(m) <==>
            && Plain(m.url) && Plain(m.etag) && Plain(m.lastModified)
            && (m.url != "" || m.etag != "" || m.lastModified != "")
  {
    hide Serialize, ReadLines, OneLine, Strip;
    StripsPlain(m.url);
    StripsPlain(m.etag);
    StripsPlain(m.lastModified);
    if AllOneLine(m) {
      ReadsBack(m);
    } else {
      ReadsOneLines(Serialize(m), BLANK);
    }
  }
}
