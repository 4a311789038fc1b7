/**
 * The example parser: reads an apiDoc example block (free text holding an
 * `HTTP/1.1 <code>` status line and a body) into a status code and a body value.
 */
module Examples {
  import opened Text
  import opened Wrappers

  /** A JSON value; `JNull` is JavaScript's `null`. */
  datatype Json =
    | JNull
    | JBool(b: bool)
    | JNumber(literal: string)
    | JString(s: string)
    | JArray(elements: seq<Json>)
    | JObject(members: seq<(string, Json)>)

  /** `JSON.parse`, which the model does not interpret: `None` stands for a thrown `SyntaxError`. */
  type JsonParser = string -> Option<Json>

  datatype ParsedExample = ParsedExample(status: Option<string>, body: Json)

  /** `HTTP/1.1`, any letter case, then whitespace, then three digits, at `i`. */
  predicate StatusLineAt(s: string, i: int) {
    && 0 <= i && i + 8 <= |s|
    && EqualsIgnoreCase(s[i..i + 8], "http/1.1")
    && var w := SpaceRunLength(s[i + 8..]);
       w > 0 && i + 8 + w + 3 <= |s| && AllDigits(s[i + 8 + w..i + 8 + w + 3])
  }

  /** The three digits of the status line at `i`. */
  function StatusLineCode(s: string, i: int): (code: string)
    requires StatusLineAt(s, i)
    ensures |code| == 3 && AllDigits(code)
  {
    var w := SpaceRunLength(s[i + 8..]);
    s[i + 8 + w..i + 8 + w + 3]
  }

  /** Leftmost match of `/HTTP\/1\.1\s+(\d{3})/i` at or after `from`. */
  function FindStatusLine(s: string, from: nat): (r: Option<nat>)
    ensures r.Some? ==> from <= r.value && StatusLineAt(s, r.value)
    ensures r.Some? ==> forall j :: from <= j < r.value ==> !StatusLineAt(s, j)
    ensures r.None? ==> forall j :: from <= j ==> !StatusLineAt(s, j)
    decreases |s| - from
  {
    if from + 8 > |s| then None
    else if StatusLineAt(s, from) then Some(from)
    else FindStatusLine(s, from + 1)
  }

  /** The text before the first line break (all of it when there is none). */
  function FirstLine(s: string): string {
    if '\n' in s then s[..IndexOf(s, '\n')] else s
  }

  /** The text after the first line break (empty when there is none). */
  function AfterFirstLine(s: string): string {
    if '\n' in s then s[IndexOf(s, '\n') + 1..] else ""
  }

  /** `lines[0]` and `lines.slice(1).join('\n')` for `lines = s.split('\n')`. */
  lemma LinesOf(s: string)
    ensures Split(s, '\n')[0] == FirstLine(s)
    ensures Join(Split(s, '\n')[1..], "\n") == AfterFirstLine(s)
  {
    if '\n' in s {
      var k := IndexOf(s, '\n');
      assert s == s[..k] + ['\n'] + s[k + 1..];
      SplitFirst(s[..k], '\n', s[k + 1..]);
      assert Split(s, '\n')[1..] == Split(s[k + 1..], '\n');
    } else {
      SplitJoin([s], '\n');
    }
  }

  /** `HTTP/1.1` in any letter case at the very start (`/^HTTP\/1\.1/i`). */
  predicate StartsWithHttp(line: string) {
    |line| >= 8 && EqualsIgnoreCase(line[..8], "http/1.1")
  }

  /** The body value for a non-empty trimmed body text: its JSON value when it parses, else the text itself. */
  function BodyValue(text: string, parse: JsonParser): Json {
    var clean := ReplaceAll(text, "\t", "  ");
    match parse(clean)
    case Some(v) => v
    case None => JString(clean)
  }

  /**
   * `parseExample`: empty content gives neither status nor body. The status
   * is the code of the leftmost `HTTP/1.1 <code>` match. The first line is
   * dropped from the body text only when a status matched and that first line
   * itself starts with `HTTP/1.1`. An empty trimmed body text gives a `null`
   * body; otherwise tabs become two spaces and the body is the parsed JSON
   * value, or the cleaned text when it does not parse.
   */
  function ParseExample(content: string, parse: JsonParser): (r: ParsedExample)
    ensures content == "" ==> r == ParsedExample(None, JNull)
    ensures r.status.None? <==> forall i :: !StatusLineAt(content, i)
    ensures forall i :: StatusLineAt(content, i) && (forall j :: 0 <= j < i ==> !StatusLineAt(content, j))
              ==> r.status == Some(StatusLineCode(content, i))
    ensures content != "" ==>
              var dropped := r.status.Some? && StartsWithHttp(FirstLine(content));
              var text := Trim(if dropped then AfterFirstLine(content) else content);
              r.body == (if text == "" then JNull else BodyValue(text, parse))
  {
    if content == "" then ParsedExample(None, JNull)
    else
      var m := FindStatusLine(content, 0);
      var status := if m.Some? then Some(StatusLineCode(content, m.value)) else None;
      var lines := Split(content, '\n');
      var kept := if m.Some? && StartsWithHttp(lines[0]) then lines[1..] else lines;
      var bodyText := Trim(Join(kept, "\n"));
      LinesOf(content);
      if bodyText == "" then ParsedExample(status, JNull)
      else ParsedExample(status, BodyValue(bodyText, parse))
  }

  /** A line `HTTP/1.1 <code>...` holds a status match at its start, with that code. */
  lemma StatusLineAtStart(code: string, rest: string)
    requires |code| == 3 && AllDigits(code)
    ensures StatusLineAt("HTTP/1.1 " + code + rest, 0)
    ensures StatusLineCode("HTTP/1.1 " + code + rest, 0) == code
  {
    var content := "HTTP/1.1 " + code + rest;
    assert content[..8] == "HTTP/1.1";
    assert Lower("HTTP/1.1") == "http/1.1";
    assert content[8..][0] == ' ';
    assert content[9..12] == code;
    assert SpaceRunLength(content[8..]) == 1 by {
      assert content[8..][1..] == content[9..];
      assert !IsSpace(content[9]) by { assert content[9] == code[0]; }
    }
  }

  /** The first line of `line + "\n" + body` is `line` and the rest is `body`. */
  lemma LinesAround(line: string, body: string)
    requires '\n' !in line
    ensures FirstLine(line + "\n" + body) == line
    ensures AfterFirstLine(line + "\n" + body) == body
  {
    var content := line + "\n" + body;
    assert content[|line|] == '\n';
    assert content[..|line|] == line;
    assert IndexOf(content, '\n') == |line|;
    assert content[|line| + 1..] == body;
  }

  /** Content starting with `HTTP/1.1 <code>` has that code as its status. */
  lemma LeadingStatus(content: string, code: string, rest: string, parse: JsonParser)
    requires |code| == 3 && AllDigits(code)
    requires content == "HTTP/1.1 " + code + rest
    ensures ParseExample(content, parse).status == Some(code)
  {
    StatusLineAtStart(code, rest);
  }

  /** With a status matched and a first line starting with `HTTP/1.1`, the body comes from the rest. */
  lemma BodyAfterStatusLine(content: string, line: string, body: string, parse: JsonParser)
    requires content == line + "\n" + body && '\n' !in line && StartsWithHttp(line)
    requires ParseExample(content, parse).status.Some?
    requires body != "" && Trimmed(body)
    ensures ParseExample(content, parse).body == BodyValue(body, parse)
  {
    LinesAround(line, body);
    TrimTrimmed(body);
  }

  /**
   * A block made of a status line `HTTP/1.1 <code><rest of line>` and a
   * tab-free trimmed body reads back as that code and that body.
   */
  lemma StatusLineRoundTrip(code: string, reason: string, body: string, parse: JsonParser)
    requires |code| == 3 && AllDigits(code)
    requires '\n' !in reason
    requires body != "" && Trimmed(body) && '\t' !in body
    ensures var r := ParseExample("HTTP/1.1 " + code + reason + "\n" + body, parse);
      && r.status == Some(code)
      && r.body == (if parse(body).Some? then parse(body).value else JString(body))
  {
    var line := "HTTP/1.1 " + code + reason;
    var content := line + "\n" + body;
    assert content == "HTTP/1.1 " + code + (reason + "\n" + body);
    LeadingStatus(content, code, reason + "\n" + body, parse);
    StatusLineShape(line, code, reason);
    BodyAfterStatusLine(content, line, body, parse);
    BodyValueWithoutTabs(body, parse);
  }

  /** A status line is one line and starts with `HTTP/1.1`. */
  lemma StatusLineShape(line: string, code: string, reason: string)
    requires line == "HTTP/1.1 " + code + reason
    requires AllDigits(code) && '\n' !in reason
    ensures '\n' !in line && StartsWithHttp(line)
  {
    assert '\n' !in "HTTP/1.1 " && '\n' !in code;
    assert line[..8] == "HTTP/1.1";
    assert Lower("HTTP/1.1") == "http/1.1";
  }

  /** Without tabs, the body value is the parsed text, or the text itself. */
  lemma BodyValueWithoutTabs(text: string, parse: JsonParser)
    requires '\t' !in text
    ensures BodyValue(text, parse) == (if parse(text).Some? then parse(text).value else JString(text))
  {
    ReplaceAllIdentityTab(text);
  }

  lemma {:induction false} ReplaceAllIdentityTab(s: string)
    requires '\t' !in s
    ensures ReplaceAll(s, "\t", "  ") == s
    decreases |s|
  {
    if |s| > 0 {
      assert s == [s[0]] + s[1..];
      ReplaceAllIdentityTab(s[1..]);
    }
  }
}
