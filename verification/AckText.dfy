/**
 The text of an acknowledgement: `key=value` fields written by the client, and the host's
 parser and number reader that recover the frame index from them.
 */
module AckText {
  import opened Bytes
  import opened Wire

  // ----- key=value fields --------------------------------------------------------------------

  datatype KeyValue = KeyValue(key: string, value: string)

  /** `find`: the first position of `c`, or -1. */
  function IndexOf(s: string, c: char): (i: int)
    ensures -1 <= i < |s|
  {
    if s == [] then -1
    else if s[0] == c then 0
    else
      var i := IndexOf(s[1..], c);
      if i < 0 then -1 else i + 1
  }

  /** `emplace`: a key that is already there keeps its value. */
  function Emplace(values: map<string, string>, f: KeyValue): (r: map<string, string>) {
    if f.key in values then values else values[f.key := f.value]
  }

  /** One field; without an equals sign it is ignored. */
  function AddField(values: map<string, string>, field: string): (r: map<string, string>) {
    var equal := IndexOf(field, '=');
    if equal < 0 then values else Emplace(values, KeyValue(field[..equal], field[equal + 1..]))
  }

  function Parse(payload: string, values: map<string, string>): (r: map<string, string>)
    decreases |payload|
  {
    if payload == [] then values
    else
      var end := IndexOf(payload, ';');
      if end < 0 then AddField(values, payload) else Parse(payload[end + 1..], AddField(values, payload[..end]))
  }

  /** One turn of the parsing loop, by absolute positions. */
  lemma ParseAt(payload: string, start: nat, end: int, values: map<string, string>)
    requires start < |payload| && end == IndexOf(payload[start..], ';')
    ensures end < 0 ==> Parse(payload[start..], values) == AddField(values, payload[start..])
    ensures end >= 0 ==>
              Parse(payload[start..], values)
              == Parse(payload[start + end + 1..], AddField(values, payload[start..start + end]))
  {
    var rest := payload[start..];
    if end >= 0 {
      assert rest[end + 1..] == payload[start + end + 1..] && rest[..end] == payload[start..start + end];
    }
  }

  /** `parseKeyValuePayload`. */
  method ParseKeyValuePayload(payload: string) returns (values: map<string, string>)
    ensures values == Parse(payload, map[])
  {
    values := map[];
    var start := 0;
    assert payload[0..] == payload;
    while start < |payload|
      invariant 0 <= start <= |payload|
      invariant Parse(payload[start..], values) == Parse(payload, map[])
    {
      var end := IndexOf(payload[start..], ';');
      ParseAt(payload, start, end, values);
      if end < 0 {
        return AddField(values, payload[start..]);
      }
      values := AddField(values, payload[start..start + end]);
      start := start + end + 1;
    }
  }

  /** Fields joined by semicolons. */
  function Join(fields: seq<KeyValue>): (text: string) {
    if fields == [] then []
    else
      var head := fields[0].key + "=" + fields[0].value;
      if |fields| == 1 then head else head + ";" + Join(fields[1..])
  }

  function EmplaceAll(values: map<string, string>, fields: seq<KeyValue>): (r: map<string, string>)
    decreases |fields|
  {
    if fields == [] then values else EmplaceAll(Emplace(values, fields[0]), fields[1..])
  }

  /** The field can be told apart again: no separator in it, and no equals sign in its key. */
  predicate Separable(f: KeyValue) {
    (forall i :: 0 <= i < |f.key| ==> f.key[i] != '=' && f.key[i] != ';') && ';' !in f.value
  }

  lemma {:induction false} IndexIs(s: string, c: char, i: nat)
    requires i < |s| && s[i] == c && forall j :: 0 <= j < i ==> s[j] != c
    ensures IndexOf(s, c) == i
  {
    if i > 0 {
      IndexIs(s[1..], c, i - 1);
    }
  }

  lemma {:induction false} IndexOfNone(s: string, c: char)
    requires forall j :: 0 <= j < |s| ==> s[j] != c
    ensures IndexOf(s, c) == -1
  {
    if s != [] {
      IndexOfNone(s[1..], c);
    }
  }

  lemma HeadField(f: KeyValue, rest: string, values: map<string, string>)
    requires Separable(f) && (rest == [] || rest[0] == ';')
    ensures var text := f.key + "=" + f.value;
            && AddField(values, text) == Emplace(values, f)
            && IndexOf(text + rest, ';') == if rest == [] then -1 else |text|
  {
    var text := f.key + "=" + f.value;
    IndexIs(text, '=', |f.key|);
    assert text[..|f.key|] == f.key && text[|f.key| + 1..] == f.value;
    forall i | 0 <= i < |text|
      ensures (text + rest)[i] != ';'
    {
      if i > |f.key| {
        assert text[i] == f.value[i - |f.key| - 1];
      }
    }
    if rest != [] {
      IndexIs(text + rest, ';', |text|);
    } else {
      IndexOfNone(text + rest, ';');
    }
  }

  /** Parsing inverts joining, for every list of separable fields: the first value of each key wins. */
  lemma {:induction false} ParseInvertsJoin(fields: seq<KeyValue>, values: map<string, string>)
    requires forall f :: f in fields ==> Separable(f)
    ensures Parse(Join(fields), values) == EmplaceAll(values, fields)
    decreases |fields|
  {
    if fields != [] {
      var text := fields[0].key + "=" + fields[0].value;
      var rest := if |fields| == 1 then [] else ";" + Join(fields[1..]);
      HeadField(fields[0], rest, values);
      assert Join(fields) == text + rest;
      if |fields| == 1 {
        assert text + rest == text;
      } else {
        assert (text + rest)[..|text|] == text && (text + rest)[|text| + 1..] == Join(fields[1..]);
        ParseInvertsJoin(fields[1..], Emplace(values, fields[0]));
      }
    }
  }

  // ----- numbers -------------------------------------------------------------------------------

  function Digit(d: nat): (c: char)
    requires d < 10
  {
    "0123456789"[d]
  }

  predicate IsDigit(c: char) { '0' <= c <= '9' }

  function DigitValue(c: char): (d: nat)
    requires IsDigit(c)
    ensures d < 10
  {
    c as int - '0' as int
  }

  /** `%llu`. */
  function Decimal(n: nat): (text: string)
    ensures |text| > 0 && forall i :: 0 <= i < |text| ==> IsDigit(text[i])
  {
    if n < 10 then [Digit(n)] else Decimal(n / 10) + [Digit(n % 10)]
  }

  /** The number at the front of the text, after `before`. */
  function DigitsFrom(text: string, before: nat): (n: nat)
    decreases |text|
  {
    if text == [] || !IsDigit(text[0]) then before else DigitsFrom(text[1..], 10 * before + DigitValue(text[0]))
  }

  /** `strtoull` on text that does not begin with a sign or white space: it saturates at the largest value. */
  function StrToU64(text: string): (n: u64) {
    var n := DigitsFrom(text, 0);
    if n < TWO64 then n else TWO64 - 1
  }

  lemma {:induction false} DigitsAppend(a: string, b: string, before: nat)
    requires forall i :: 0 <= i < |a| ==> IsDigit(a[i])
    ensures DigitsFrom(a + b, before) == DigitsFrom(b, DigitsFrom(a, before))
    decreases |a|
  {
    if a == [] {
      assert a + b == b;
    } else {
      assert (a + b)[1..] == a[1..] + b;
      DigitsAppend(a[1..], b, 10 * before + DigitValue(a[0]));
    }
  }

  lemma {:induction false} DecimalRoundTrip(n: nat)
    ensures DigitsFrom(Decimal(n), 0) == n
  {
    if n < 10 {
      assert Decimal(n)[1..] == [];
    } else {
      var last := [Digit(n % 10)];
      DecimalRoundTrip(n / 10);
      DigitsAppend(Decimal(n / 10), last, 0);
      assert last[1..] == [];
    }
  }

  /** Any printed number is read back, or as the largest 64-bit value if it is larger. */
  lemma NumberRead(n: nat)
    ensures StrToU64(Decimal(n)) == if n < 0x1_0000_0000_0000_0000 then n else 0xFFFF_FFFF_FFFF_FFFF
  {
    DecimalRoundTrip(n);
  }

  // ----- the acknowledgement ------------------------------------------------------------------

  function AckTail(latency: string, surface: bool): (fields: seq<KeyValue>) {
    [KeyValue("quest_receive_to_publish_ms", latency), KeyValue("surface", if surface then "1" else "0")]
  }

  /** What `sendVideoDecodeAcks` prints, with the latency already formatted. */
  function AckPayload(frame: u64, latency: string, surface: bool): (text: string) {
    Join([KeyValue("kind", "video_ack"), KeyValue("frame_index", Decimal(frame))] + AckTail(latency, surface))
  }

  /** The frame index that `handleStatsPayload` acts on; None when it returns early. */
  function AckedFrame(payload: string): (r: Option<u64>) {
    var values := Parse(payload, map[]);
    if "kind" !in values || values["kind"] != "video_ack" || "frame_index" !in values then None
    else Some(StrToU64(values["frame_index"]))
  }

  lemma AckFieldsSeparable(frame: u64, surface: bool)
    ensures Separable(KeyValue("kind", "video_ack")) && Separable(KeyValue("surface", if surface then "1" else "0"))
    ensures Separable(KeyValue("frame_index", Decimal(frame)))
  {
    assert forall i :: 0 <= i < |Decimal(frame)| ==> IsDigit(Decimal(frame)[i]);
  }

  /** Later fields do not change a value that is already there. */
  lemma {:induction false} KeptByRest(values: map<string, string>, fields: seq<KeyValue>, k: string)
    requires k in values
    ensures k in EmplaceAll(values, fields) && EmplaceAll(values, fields)[k] == values[k]
    decreases |fields|
  {
    if fields != [] {
      KeptByRest(Emplace(values, fields[0]), fields[1..], k);
    }
  }

  /** The first two fields, with different keys, are there after parsing. */
  lemma FirstTwoFields(a: KeyValue, b: KeyValue, rest: seq<KeyValue>)
    requires Separable(a) && Separable(b) && a.key != b.key && forall f :: f in rest ==> Separable(f)
    ensures var values := Parse(Join([a, b] + rest), map[]);
            a.key in values && values[a.key] == a.value && b.key in values && values[b.key] == b.value
  {
    var fields, first := [a, b] + rest, Emplace(map[], a);
    ParseInvertsJoin(fields, map[]);
    assert fields[1..] == [b] + rest && fields[1..][1..] == rest;
    assert EmplaceAll(first, fields[1..]) == EmplaceAll(Emplace(first, b), rest);
    KeptByRest(Emplace(first, b), rest, a.key);
    KeptByRest(Emplace(first, b), rest, b.key);
  }

  /** The host reads back exactly the frame index the client acknowledged, for every 64-bit index. */
  lemma AckRoundTrip(frame: u64, latency: string, surface: bool)
    requires ';' !in latency
    ensures AckedFrame(AckPayload(frame, latency, surface)) == Some(frame)
  {
    AckFieldsSeparable(frame, surface);
    assert |"kind"| != |"frame_index"|;
    FirstTwoFields(KeyValue("kind", "video_ack"), KeyValue("frame_index", Decimal(frame)), AckTail(latency, surface));
    DecimalRoundTrip(frame);
  }

  function Text(f: KeyValue): (text: string) { f.key + "=" + f.value }

  lemma JoinFour(a: KeyValue, b: KeyValue, c: KeyValue, d: KeyValue, rest: seq<KeyValue>)
    requires rest == [c, d]
    ensures Join([a, b] + rest) == Text(a) + ";" + (Text(b) + ";" + (Text(c) + ";" + Text(d)))
  {
    var fields := [a, b] + rest;
    assert fields[1..] == [b] + rest && fields[1..][1..] == rest && rest[1..] == [d];
    assert Join(rest[1..]) == Text(d);
    assert Join(rest) == Text(c) + ";" + Join(rest[1..]);
    assert Join(fields[1..]) == Text(b) + ";" + Join(rest);
  }

  /** The text that is sent. */
  lemma AckPayloadText(frame: u64, latency: string, surface: bool)
    ensures AckPayload(frame, latency, surface)
         == "kind=video_ack" + ";" + (("frame_index=" + Decimal(frame)) + ";"
            + (("quest_receive_to_publish_ms=" + latency) + ";" + (if surface then "surface=1" else "surface=0")))
  {
    var a, b := KeyValue("kind", "video_ack"), KeyValue("frame_index", Decimal(frame));
    var c, d := KeyValue("quest_receive_to_publish_ms", latency), KeyValue("surface", if surface then "1" else "0");
    JoinFour(a, b, c, d, AckTail(latency, surface));
    assert Text(a) == "kind=video_ack";
    assert "frame_index" + "=" == "frame_index=";
    assert "quest_receive_to_publish_ms" + "=" == "quest_receive_to_publish_ms=";
    assert Text(d) == if surface then "surface=1" else "surface=0";
  }

  /** The value of the first field with this key. */
  function FirstValue(fields: seq<KeyValue>, key: string): (r: Option<string>) {
    if fields == [] then None else if fields[0].key == key then Some(fields[0].value) else FirstValue(fields[1..], key)
  }

  lemma {:induction false} EmplacedIsFirst(values: map<string, string>, fields: seq<KeyValue>, k: string)
    ensures var r := EmplaceAll(values, fields);
            if k in values then k in r && r[k] == values[k]
            else match FirstValue(fields, k) case None => k !in r case Some(v) => k in r && r[k] == v
    decreases |fields|
  {
    if fields != [] {
      EmplacedIsFirst(Emplace(values, fields[0]), fields[1..], k);
    }
  }

  /**
   Exactly which payloads count as acknowledgements: those whose first `kind` is `video_ack` and that
   have a frame index, of which the first counts; any other yields none.
   */
  lemma OnlyAcksCount(fields: seq<KeyValue>)
    requires forall f :: f in fields ==> Separable(f)
    ensures AckedFrame(Join(fields))
         == if FirstValue(fields, "kind") == Some("video_ack") && FirstValue(fields, "frame_index").Some?
            then Some(StrToU64(FirstValue(fields, "frame_index").value)) else None
  {
    ParseInvertsJoin(fields, map[]);
    EmplacedIsFirst(map[], fields, "kind");
    EmplacedIsFirst(map[], fields, "frame_index");
  }
}
