/**
 * The line format of the write-ahead log and of the segment files:
 * `hex(key) + ", " + json(value) + "\n"`, where the JSON object carries the
 * payload as hex text. Reading a line strips it, splits it at its first
 * comma, decodes the key from hex, loads the JSON and decodes the payload
 * from hex; any of these steps can raise on a malformed line.
 */
module LogLines {
  import opened Wrappers
  import opened ByteKeys
  import opened Text
  import opened Hex

  /** A stored value: `{content_type, encoding, value}` with a `bytes` payload. */
  datatype Value = Value(contentType: string, encoding: string, payload: seq<byte>)

  /** The JSON object written for a value: the payload as hex text. */
  datatype JsonObject = JsonObject(contentType: string, encoding: string, value: string)

  /**
   * `json.dumps` and `json.loads` on such objects; `loads` gives None where
   * Python raises (malformed text, or an object without these fields).
   */
  datatype Json = Json(dumps: JsonObject -> string, loads: string -> Option<JsonObject>)

  /**
   * What the log format needs of the JSON library: the text of an object is
   * a single line that starts with `{` and ends with `}`, and loading it
   * back, even after a leading space, gives the object.
   */
  ghost predicate Lawful(json: Json) {
    forall o: JsonObject {:trigger json.dumps(o)} ::
      |json.dumps(o)| >= 2 && json.dumps(o)[0] == '{' && json.dumps(o)[|json.dumps(o)| - 1] == '}' &&
      '\n' !in json.dumps(o) && json.loads(" " + json.dumps(o)) == Some(o)
  }

  /** `serialize_value`: the value as a JSON object whose payload is hex text. */
  function SerializeValue(json: Json, v: Value): string {
    json.dumps(JsonObject(v.contentType, v.encoding, ToHex(v.payload)))
  }

  /** `to_log_entry`: `hex(key) + ", " + serialize_value(value) + "\n"`. */
  function ToLogEntry(json: Json, key: Key, v: Value): (line: string)
    ensures |line| == 2 * |key| + |SerializeValue(json, v)| + 3
  {
    ToHex(key) + ", " + SerializeValue(json, v) + "\n"
  }

  /**
   * `k, v = text.split(',', 1)` then `bytes.fromhex(k)`, on an already
   * stripped line: the key and the text after the comma. None where Python
   * raises (no comma, or a key that is not hex).
   */
  function SplitKey(text: string): Option<(Key, string)> {
    match SplitOnce(text, ',')
    case None => None
    case Some((k, rest)) =>
      match FromHex(k)
      case None => None
      case Some(key) => Some((key, rest))
  }

  /** `json.loads(text)` then `bytes.fromhex` of its `value` field. None where Python raises. */
  function DecodeValue(json: Json, text: string): Option<Value> {
    match json.loads(text)
    case None => None
    case Some(o) =>
      match FromHex(o.value)
      case None => None
      case Some(payload) => Some(Value(o.contentType, o.encoding, payload))
  }

  /** A stripped line read as a record: split, key from hex, value from JSON. */
  function ReadRecord(json: Json, text: string): Option<(Key, Value)> {
    match SplitKey(text)
    case None => None
    case Some((key, rest)) =>
      match DecodeValue(json, rest)
      case None => None
      case Some(v) => Some((key, v))
  }

  /** A whole line read back, as `restore_memtable` and `repopulate_index` do. */
  function ParseLine(json: Json, line: string): Option<(Key, Value)> {
    ReadRecord(json, Strip(line))
  }

  /**
   * `bytes.fromhex(line.strip().split(',', 1)[0])`, the key as `merge`
   * reads it; a line without a comma is all key.
   */
  function LineKey(line: string): Option<Key> {
    FromHex(Head(Strip(line), ','))
  }

  /** A log line stripped: the trailing newline goes, nothing else does. */
  lemma StripLogEntry(json: Json, key: Key, v: Value)
    requires Lawful(json)
    ensures Strip(ToLogEntry(json, key, v)) == ToHex(key) + ", " + SerializeValue(json, v)
  {
    var d := SerializeValue(json, v);
    var body := ToHex(key) + ", " + d;
    assert ToLogEntry(json, key, v) == body + "\n";
    assert |d| >= 2 && d[0] == '{' && d[|d| - 1] == '}';
    assert body[|body| - 1] == '}';
    assert !IsSpace(body[0]) by {
      if |key| > 0 {
        assert body[0] == ToHex(key)[0];
      } else {
        assert body[0] == ',';
      }
    }
    StripNewline(body);
  }

  /** A text that neither starts nor ends with a space, then a newline: stripping removes the newline. */
  lemma StripNewline(body: string)
    requires |body| > 0 && !IsSpace(body[0]) && !IsSpace(body[|body| - 1])
    ensures Strip(body + "\n") == body
  {
    var line := body + "\n";
    assert line[0] == body[0];
    assert StripLeft(line) == line;
    assert line[..|line| - 1] == body;
    assert StripRight(body) == body;
  }

  /** The stripped line splits at the comma right after the hex key. */
  lemma SplitLogEntry(json: Json, key: Key, v: Value)
    requires Lawful(json)
    ensures SplitOnce(ToHex(key) + ", " + SerializeValue(json, v), ',') == Some((ToHex(key), " " + SerializeValue(json, v)))
  {
    var h, d := ToHex(key), SerializeValue(json, v);
    assert ',' !in h by {
      forall i | 0 <= i < |h| ensures h[i] != ',' {
        assert IsLowerHexDigit(h[i]);
      }
    }
    FindAt(h, ", " + d, ',');
    assert h + ", " + d == h + (", " + d);
    assert (h + ", " + d)[..|h|] == h;
    assert (h + ", " + d)[|h| + 1..] == " " + d;
  }

  /**
   * Reading a log line back gives the key and value it was written from;
   * `merge`'s key-only reading gives the key.
   */
  lemma ParseLogEntry(json: Json, key: Key, v: Value)
    requires Lawful(json)
    ensures SplitKey(Strip(ToLogEntry(json, key, v))) == Some((key, " " + SerializeValue(json, v)))
    ensures DecodeValue(json, " " + SerializeValue(json, v)) == Some(v)
    ensures ParseLine(json, ToLogEntry(json, key, v)) == Some((key, v))
    ensures LineKey(ToLogEntry(json, key, v)) == Some(key)
  {
    StripLogEntry(json, key, v);
    SplitLogEntry(json, key, v);
    FromHexToHex(key);
    FromHexToHex(v.payload);
    var o := JsonObject(v.contentType, v.encoding, ToHex(v.payload));
    assert json.loads(" " + json.dumps(o)) == Some(o);
  }

  /** A log line holds exactly one newline, its last character: it is one line of its file. */
  lemma LogEntryIsOneLine(json: Json, key: Key, v: Value)
    requires Lawful(json)
    ensures Occurrences(ToLogEntry(json, key, v), '\n') == 1
    ensures ToLogEntry(json, key, v)[|ToLogEntry(json, key, v)| - 1] == '\n'
  {
    var h, d := ToHex(key), SerializeValue(json, v);
    assert '\n' !in h by {
      forall i | 0 <= i < |h| ensures h[i] != '\n' {
        assert IsLowerHexDigit(h[i]);
      }
    }
    assert '\n' !in d;
    OccurrencesNone(h, '\n');
    OccurrencesNone(d, '\n');
    OccurrencesNone(", ", '\n');
    OccurrencesAppend(h, ", ", '\n');
    OccurrencesAppend(h + ", ", d, '\n');
    OccurrencesAppend(h + ", " + d, "\n", '\n');
    assert Occurrences("\n", '\n') == 1;
  }
}
