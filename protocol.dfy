/** The message codec shared by client and server: eight message tags, a message as a JSON record
    `{"type": <tag>, "data": <payload>}` sent as one newline-terminated frame, its parser with the
    three rejections, and the coordinate check. The JSON text itself is abstract: a frame carries the
    decoded JSON value, or the decoder's complaint when the text is not JSON. */
module Protocol {
  import opened Wrappers
  import opened Ascii

  datatype MessageType = StartGame | PositioningShips | ShipsInPosition | Shot | Hit | Miss | GameOver | Error

  /** The tag's value, as it travels in the "type" field. */
  function TagName(t: MessageType): string
  {
    match t
    case StartGame => "START_GAME"
    case PositioningShips => "POSITIONING_SHIPS"
    case ShipsInPosition => "SHIPS_IN_POSITION"
    case Shot => "SHOT"
    case Hit => "HIT"
    case Miss => "MISS"
    case GameOver => "GAME_OVER"
    case Error => "ERROR"
  }

  /** `MessageType(value)`: the tag whose value is `s`, if there is one. */
  function TagOf(s: string): (r: Option<MessageType>)
    ensures r.Some? ==> TagName(r.value) == s
    ensures r.None? ==> forall t: MessageType :: TagName(t) != s
  {
    if s == "START_GAME" then Some(StartGame)
    else if s == "POSITIONING_SHIPS" then Some(PositioningShips)
    else if s == "SHIPS_IN_POSITION" then Some(ShipsInPosition)
    else if s == "SHOT" then Some(Shot)
    else if s == "HIT" then Some(Hit)
    else if s == "MISS" then Some(Miss)
    else if s == "GAME_OVER" then Some(GameOver)
    else if s == "ERROR" then Some(Error)
    else None
  }

  /** Every tag's value names that tag and no other. */
  lemma TagRoundTrip(t: MessageType)
    ensures TagOf(TagName(t)) == Some(t)
  {
  }

  /** `str(t)` of a tag, as it appears in the session errors: "MessageType.SHOT". */
  function TagText(t: MessageType): string
  {
    "MessageType." + TagName(t)
  }

  /** Two tags print the same exactly when they are the same tag. */
  lemma TagTextDistinct(t: MessageType, u: MessageType)
    ensures TagText(t) == TagText(u) <==> t == u
  {
    if TagText(t) == TagText(u) {
      assert TagName(t) == TagText(t)[|"MessageType."|..];
      assert TagName(u) == TagText(u)[|"MessageType."|..];
      TagRoundTrip(t);
      TagRoundTrip(u);
    }
  }

  /** A decoded JSON value (floating-point numbers are not modelled). */
  datatype JValue =
    | JNull
    | JBool(b: bool)
    | JNumber(n: int)
    | JString(str: string)
    | JArray(items: seq<JValue>)
    | JObject(fields: map<string, JValue>)

  /** Text that `str.strip()` removes entirely. */
  type Blank = s: string | forall i | 0 <= i < |s| :: IsSpace(s[i])

  /** What `json.loads` makes of the text between the blanks: a value, or the decoder's error text. */
  datatype Document = Json(value: JValue) | Malformed(reason: string)

  /** One frame on the wire: the JSON text, with possibly some white space before and after it. */
  datatype Frame = Frame(lead: Blank, doc: Document, trail: Blank)

  /** create_message: the record {"type": tag, "data": payload}, a missing or empty payload sent as {},
      with nothing before it and the newline after it. */
  function CreateMessage(t: MessageType, data: Option<map<string, JValue>>): (f: Frame)
    ensures f.lead == "" && f.trail == "\n"
    ensures f.doc.Json? && f.doc.value.JObject? && f.doc.value.fields.Keys == {"type", "data"}
    ensures f.doc.value.fields["type"] == JString(TagName(t))
    ensures data.None? ==> f.doc.value.fields["data"] == JObject(map[])
    ensures data.Some? ==> f.doc.value.fields["data"] == JObject(data.value)
  {
    Frame("", Json(JObject(map["type" := JString(TagName(t)), "data" := JObject(data.GetOr(map[]))])), "\n")
  }

  /** What parse_message does with a frame. `Invalid` is InvalidMessageError with its text;
      `Unsubscriptable` is the TypeError that `parsed["type"]` raises when the JSON value is not an
      object, which parse_message does not catch. */
  datatype Parse = Parsed(kind: MessageType, data: JValue) | Invalid(text: string) | Unsubscriptable

  /** The prefix of every InvalidMessageError text. */
  const InvalidPrefix: string := "Invalid message format: "

  /** parse_message: strips the blanks, decodes, looks up "type" and "data" (defaulting to {}). */
  function ParseMessage(f: Frame): (r: Parse)
    ensures f.doc.Malformed? ==> r == Invalid(InvalidPrefix + f.doc.reason)
    ensures r.Unsubscriptable? <==> f.doc.Json? && !f.doc.value.JObject?
    ensures r.Parsed? <==>
      f.doc.Json? && f.doc.value.JObject? && "type" in f.doc.value.fields
      && f.doc.value.fields["type"].JString? && TagOf(f.doc.value.fields["type"].str).Some?
    ensures r.Parsed? ==> TagName(r.kind) == f.doc.value.fields["type"].str
    ensures r.Parsed? ==> r.data == if "data" in f.doc.value.fields then f.doc.value.fields["data"] else JObject(map[])
  {
    match f.doc
    case Malformed(reason) => Invalid(InvalidPrefix + reason)
    case Json(v) =>
      match v
      case JObject(fields) =>
        if "type" !in fields then Invalid(InvalidPrefix + "'type'")
        else
          var tag := fields["type"];
          var kind := if tag.JString? then TagOf(tag.str) else None;
          if kind.None? then Invalid(InvalidPrefix + Repr(tag) + " is not a valid MessageType")
          else Parsed(kind.value, if "data" in fields then fields["data"] else JObject(map[]))
      case _ => Unsubscriptable
  }

  /** Python's `repr` of a decoded JSON value, as it appears in the ValueError text of an unknown tag:
      `None`, `True`/`False`, the decimal integer, the quoted and escaped string (non-ASCII
      characters kept as they are), the list of the items' reprs. A dict is shown as `{...}`: its key order is not modelled. */
  function Repr(v: JValue): string
    decreases v
  {
    match v
    case JNull => "None"
    case JBool(b) => if b then "True" else "False"
    case JNumber(n) => if n < 0 then "-" + Decimal(-n) else Decimal(n)
    case JString(s) => StrRepr(s)
    case JArray(items) => "[" + Join(seq(|items|, i requires 0 <= i < |items| => Repr(items[i]))) + "]"
    case JObject(_) => "{...}"
  }

  /** The parts separated by ", ", as a list's repr shows its items. */
  function Join(parts: seq<string>): string
  {
    if parts == [] then "" else if |parts| == 1 then parts[0] else parts[0] + ", " + Join(parts[1..])
  }

  /** The quote `repr` puts around a string: a double quote when the string holds a single quote but
      no double quote, otherwise a single quote. */
  function QuoteFor(s: string): (q: char)
    ensures q == '\'' || q == '"'
    ensures q == '"' <==> '\'' in s && '"' !in s
  {
    if '\'' in s && '"' !in s then '"' else '\''
  }

  /** `repr` of a string: the quote, each character escaped, the quote. */
  function StrRepr(s: string): (r: string)
    ensures |r| >= 2 && r[0] == QuoteFor(s) && r[|r| - 1] == QuoteFor(s)
  {
    [QuoteFor(s)] + Escaped(s, QuoteFor(s)) + [QuoteFor(s)]
  }

  /** The characters of `s` as `repr` writes them between the quotes `q`. */
  function Escaped(s: string, q: char): string
  {
    if s == [] then "" else EscapeChar(s[0], q) + Escaped(s[1..], q)
  }

  /** One character inside a string's repr: backslash and the enclosing quote are escaped, tab,
      newline and carriage return by name, the other ASCII control characters and DEL in hex;
      everything else stands for itself. */
  function EscapeChar(c: char, q: char): (r: string)
    ensures c != q && (Plain(c) || c == '"' || c == '\'' || c as int >= 0x80) ==> r == [c]
  {
    if c == '\\' then "\\\\"
    else if c == q then ['\\', q]
    else if c == '\t' then "\\t"
    else if c == '\n' then "\\n"
    else if c == '\r' then "\\r"
    else if c < ' ' || c == '\U{007F}' then "\\x" + [HexDigit(c as int / 16), HexDigit(c as int % 16)]
    else [c]
  }

  /** A lower-case hexadecimal digit. */
  function HexDigit(d: nat): char
    requires d < 16
  {
    "0123456789abcdef"[d]
  }

  /** Printable ASCII that `repr` shows unescaped between either quote. */
  predicate Plain(c: char)
  {
    ' ' <= c <= '~' && c != '\'' && c != '"' && c != '\\'
  }

  /** A string of characters that need no escape is shown between single quotes as it is. */
  lemma {:induction false} PlainRepr(s: string)
    requires forall i | 0 <= i < |s| :: Plain(s[i])
    ensures StrRepr(s) == "'" + s + "'"
  {
    PlainEscaped(s, '\'');
  }

  lemma {:induction false} PlainEscaped(s: string, q: char)
    requires (q == '\'' || q == '"') && forall i | 0 <= i < |s| :: Plain(s[i])
    ensures Escaped(s, q) == s
  {
    if s != [] {
      PlainEscaped(s[1..], q);
      assert Plain(s[0]);
    }
  }

  /** One character, then the rest. */
  lemma EscapedCons(c: char, s: string, q: char)
    ensures Escaped([c] + s, q) == EscapeChar(c, q) + Escaped(s, q)
  {
    assert ([c] + s)[1..] == s;
  }

  /** A list's repr shows its items' reprs between brackets, separated by ", ". */
  lemma ReprLists()
    ensures Repr(JArray([JString("X")])) == "['X']"
    ensures Repr(JArray([])) == "[]"
  {
    assert Plain('X');
    PlainRepr("X");
    var one := [JString("X")];
    assert Repr(one[0]) == "'X'";
    assert seq(|one|, i requires 0 <= i < |one| => Repr(one[i])) == ["'X'"];
  }

  /** A string with an apostrophe and no double quote is shown in double quotes. */
  lemma ReprApostrophe()
    ensures Repr(JString("it's")) == "\"it's\""
  {
    assert "it's"[2] == '\'';
    assert QuoteFor("it's") == '"';
    EscapedCons('s', "", '"');
    EscapedCons('\'', "s", '"');
    EscapedCons('t', "'s", '"');
    EscapedCons('i', "t's", '"');
  }

  /** With both quotes, single quotes are used and the apostrophe is escaped; a newline is shown by
      name; a non-ASCII letter stands for itself. */
  lemma ReprEscapes()
    ensures Repr(JString("a'\"")) == "'a\\'\"'"
    ensures Repr(JString("a\n")) == "'a\\n'"
    ensures Repr(JString("\U{00E9}")) == "'\U{00E9}'"
  {
    assert "a'\""[2] == '"';
    EscapedCons('"', "", '\'');
    EscapedCons('\'', "\"", '\'');
    EscapedCons('a', "'\"", '\'');
    EscapedCons('\n', "", '\'');
    EscapedCons('a', "\n", '\'');
    EscapedCons('\U{00E9}', "", '\'');
  }

  /** The decimal digits of `n`. */
  function Decimal(n: nat): (r: string)
    ensures |r| > 0 && forall i | 0 <= i < |r| :: '0' <= r[i] <= '9'
  {
    (if n < 10 then "" else Decimal(n / 10)) + [('0' as int + n % 10) as char]
  }

  /** The complete parse of any frame create_message builds: its tag and payload come back. */
  lemma ParseCreate(t: MessageType, data: Option<map<string, JValue>>)
    ensures ParseMessage(CreateMessage(t, data)) == Parsed(t, JObject(data.GetOr(map[])))
  {
    TagRoundTrip(t);
  }

  /** parse_message looks only at the JSON between the blanks; in particular it ignores the newline.
      The `Frame` datatype itself encodes `message.strip()` (the blanks are kept apart from the
      document), so this holds by construction and records that choice. */
  lemma ParseIgnoresBlanks(f: Frame, lead: Blank, trail: Blank)
    ensures ParseMessage(Frame(lead, f.doc, trail)) == ParseMessage(f)
  {
  }

  /** The three rejections: text that is not JSON, an object without "type", and a "type" that is not
      one of the eight tags. */
  lemma ParseRejects(lead: Blank, trail: Blank, reason: string, fields: map<string, JValue>)
    ensures ParseMessage(Frame(lead, Malformed(reason), trail)) == Invalid(InvalidPrefix + reason)
    ensures "type" !in fields ==> ParseMessage(Frame(lead, Json(JObject(fields)), trail)) == Invalid(InvalidPrefix + "'type'")
    ensures "type" in fields && fields["type"].JString? && (forall t: MessageType :: TagName(t) != fields["type"].str)
      ==> ParseMessage(Frame(lead, Json(JObject(fields)), trail)) == Invalid(InvalidPrefix + Repr(fields["type"]) + " is not a valid MessageType")
  {
  }

  /** An unknown tag is reported by its repr: "'FIRE' is not a valid MessageType". */
  lemma ParseUnknownTag(f: Frame)
    requires f.doc == Json(JObject(map["type" := JString("FIRE")]))
    ensures ParseMessage(f) == Invalid(InvalidPrefix + "'FIRE'" + " is not a valid MessageType")
  {
    assert TagOf("FIRE") == None;
    assert forall i | 0 <= i < |"FIRE"| :: Plain("FIRE"[i]);
    PlainRepr("FIRE");
  }

  /** A record without "data" is parsed with the empty payload. */
  lemma ParseWithoutData(f: Frame, t: MessageType)
    requires f.doc == Json(JObject(map["type" := JString(TagName(t))]))
    ensures ParseMessage(f) == Parsed(t, JObject(map[]))
  {
    TagRoundTrip(t);
  }

  /** The column letters and the row digits, as validate_coordinate spells them. */
  const Columns: string := "ABCDEFGHI"
  const Rows: string := "123456789"

  /** validate_coordinate on a string. */
  function ValidateCoordinate(coord: string): bool
  {
    if coord == [] || |coord| != 2 then false
    else Contains(Columns, [UpperChar(coord[0])]) && Contains(Rows, [coord[1]])
  }

  /** validate_coordinate accepts exactly the two-character strings whose upper-cased first character
      is a letter A..I and whose second character is a digit 1..9. */
  lemma ValidateExactly(coord: string)
    ensures ValidateCoordinate(coord) <==> |coord| == 2 && 'A' <= UpperChar(coord[0]) <= 'I' && '1' <= coord[1] <= '9'
  {
    if |coord| == 2 {
      ContainsChar(Columns, UpperChar(coord[0]));
      ContainsChar(Rows, coord[1]);
      SpansInOrder();
      InSpan(Columns, 'A', UpperChar(coord[0]));
      InSpan(Rows, '1', coord[1]);
    }
  }

  /** The column letters run from A and the row digits from 1, one character after the other. */
  lemma SpansInOrder()
    ensures forall i | 0 <= i < |Columns| :: Columns[i] as int == 'A' as int + i
    ensures forall i | 0 <= i < |Rows| :: Rows[i] as int == '1' as int + i
  {
    assert Columns == ['A', 'B', 'C', 'D', 'E', 'F', 'G', 'H', 'I'];
    assert Rows == ['1', '2', '3', '4', '5', '6', '7', '8', '9'];
  }

  /** A string of consecutive characters from `first` holds exactly the characters of that span. */
  lemma InSpan(s: string, first: char, c: char)
    requires forall i | 0 <= i < |s| :: s[i] as int == first as int + i
    ensures c in s <==> first as int <= c as int < first as int + |s|
  {
    if first as int <= c as int < first as int + |s| {
      assert s[c as int - first as int] == c;
    }
  }

  /** Examples: the empty string, a single letter, three characters, a letter past I and the digit 0
      are rejected; lower-case letters are accepted. */
  lemma ValidateExamples()
    ensures !ValidateCoordinate("") && !ValidateCoordinate("A") && !ValidateCoordinate("A10")
    ensures !ValidateCoordinate("J1") && !ValidateCoordinate("A0")
    ensures ValidateCoordinate("A1") && ValidateCoordinate("i9") && ValidateCoordinate("b7")
  {
    ValidateExactly("J1");
    ValidateExactly("A0");
    ValidateExactly("A1");
    ValidateExactly("i9");
    ValidateExactly("b7");
  }

  /** What validate_coordinate does with an arbitrary JSON value (the server passes it whatever the
      "coordinate" field holds): accept, reject, or raise (TypeError or AttributeError). */
  datatype Check = Accept | Reject | Raise

  /** Python truthiness of a JSON value. */
  predicate Truthy(v: JValue)
  {
    match v
    case JNull => false
    case JBool(b) => b
    case JNumber(n) => n != 0
    case JString(s) => s != []
    case JArray(items) => items != []
    case JObject(fields) => fields != map[]
  }

  /** The falsy JSON values are exactly null, false, 0, the empty string, the empty list and the empty
      object. */
  lemma FalsyValues(v: JValue)
    ensures !Truthy(v) <==> v in [JNull, JBool(false), JNumber(0), JString(""), JArray([]), JObject(map[])]
  {
  }

  /** validate_coordinate applied to any JSON value, following Python's `not`, `len`, indexing,
      `.upper()` and `in` on what it is given. */
  function CheckCoordinate(v: JValue): (r: Check)
    ensures v.JString? ==> (r == Accept <==> ValidateCoordinate(v.str)) && r != Raise
  {
    if !Truthy(v) then Reject
    else
      match v
      case JString(s) => if ValidateCoordinate(s) then Accept else Reject
      case JArray(items) =>
        if |items| != 2 then Reject
        else if !items[0].JString? then Raise
        else if !Contains(Columns, Upper(items[0].str)) then Reject
        else if !items[1].JString? then Raise
        else if Contains(Rows, items[1].str) then Accept
        else Reject
      case JObject(fields) => if |fields| != 2 then Reject else Raise
      case _ => Raise
  }

  /** The receive path of both ends (receive_message): one received chunk, an undecodable chunk
      (UnicodeDecodeError), or the peer having closed the connection (an empty chunk). */
  datatype Incoming = Delivered(frame: Frame) | Undecodable | Closed

  /** What receive_message hands back: a message; an InvalidMessageError with its text; or any other
      exception (ConnectionError, UnicodeDecodeError, the TypeError of a non-object). */
  datatype Received = Got(kind: MessageType, data: JValue) | ProtocolError(text: string) | Crash

  function Receive(i: Incoming): (r: Received)
    ensures r.Got? <==> i.Delivered? && ParseMessage(i.frame).Parsed?
    ensures r.Got? ==> ParseMessage(i.frame) == Parsed(r.kind, r.data)
    ensures r.ProtocolError? <==> i.Delivered? && ParseMessage(i.frame).Invalid?
    ensures r.ProtocolError? ==> r.text == ParseMessage(i.frame).text
  {
    match i
    case Delivered(f) =>
      (match ParseMessage(f)
       case Parsed(k, d) => Got(k, d)
       case Invalid(text) => ProtocolError(text)
       case Unsubscriptable => Crash)
    case _ => Crash
  }

  /** receive_message applied to each frame in turn. */
  function ReceiveEach(frames: seq<Incoming>): (r: seq<Received>)
    ensures |r| == |frames| && forall k | 0 <= k < |frames| :: r[k] == Receive(frames[k])
  {
    seq(|frames|, k requires 0 <= k < |frames| => Receive(frames[k]))
  }

  /** A frame the other end built with create_message is received as exactly that message. */
  lemma ReceiveCreate(t: MessageType, data: Option<map<string, JValue>>)
    ensures Receive(Delivered(CreateMessage(t, data))) == Got(t, JObject(data.GetOr(map[])))
  {
    ParseCreate(t, data);
  }
}
