/**
  The text format of the messages pushed to the browser, and the page
  script's decoding of them.

  The server sends `key + ":" + text` where `text` is the rendered value
  followed by the cell's unit. The page script splits the message with
  JavaScript's `String.prototype.split(':')` and keeps the first two parts
  as `[key, text]`; a message without a colon leaves `text` undefined.
*/
module WireFormat {
  import opened Wrappers

  const Colon: char := ':'

  predicate ColonFree(s: string) {
    Colon !in s
  }

  /** The message the server sends for cell `key`: the key, a colon, the rendered value `text` and the unit. */
  function Payload(key: string, text: string, unit: string): (r: string)
    ensures |r| == |key| + 1 + |text| + |unit|
    ensures r[..|key|] == key && r[|key|] == Colon
    ensures r[|key| + 1..] == text + unit
  {
    key + [Colon] + text + unit
  }

  /** Index of the first colon. */
  function FirstColon(s: string): (i: nat)
    requires Colon in s
    ensures i < |s| && s[i] == Colon
    ensures ColonFree(s[..i])
  {
    if s[0] == Colon then 0
    else
      var i := 1 + FirstColon(s[1..]);
      assert s[..i] == [s[0]] + s[1..][..i - 1];
      i
  }

  /** JavaScript's `s.split(':')`: the pieces between colons, always at least one. */
  function Split(s: string): (parts: seq<string>)
    ensures |parts| >= 1
    ensures forall n :: 0 <= n < |parts| ==> ColonFree(parts[n])
    decreases |s|
  {
    if Colon !in s then [s]
    else
      var i := FirstColon(s);
      [s[..i]] + Split(s[i + 1..])
  }

  /** The pieces put back together with colons between them. */
  function Join(parts: seq<string>): string
    requires |parts| >= 1
    decreases |parts|
  {
    if |parts| == 1 then parts[0] else parts[0] + [Colon] + Join(parts[1..])
  }

  /** What the page script extracts: the first two pieces of the split message, the second possibly undefined. */
  datatype Update = Update(key: string, text: Option<string>)

  /**
    The key is everything before the first colon (the whole message when it
    has none, and then the text is undefined); the text is everything
    between the first colon and the next one, or the end.
  */
  function ClientDecode(data: string): (u: Update)
    ensures ColonFree(u.key)
    ensures u.text.None? <==> ColonFree(data)
    ensures u.text.None? ==> u.key == data
    ensures u.text.Some? ==>
      |u.key| < |data| && data[..|u.key|] == u.key && data[|u.key|] == Colon
    ensures u.text.Some? ==>
      var rest := data[|u.key| + 1..];
      ColonFree(u.text.value) && u.text.value <= rest &&
      (|u.text.value| == |rest| || rest[|u.text.value|] == Colon)
  {
    var parts := Split(data);
    if Colon in data then
      var i := FirstColon(data);
      var rest := data[i + 1..];
      assert parts == [data[..i]] + Split(rest);
      SplitHead(rest);
      Update(parts[0], Some(parts[1]))
    else
      Update(parts[0], None)
  }

  /** The first piece of a split is the text up to the first colon, or all of it. */
  lemma SplitHead(s: string)
    ensures Split(s)[0] <= s
    ensures |Split(s)[0]| == |s| || s[|Split(s)[0]|] == Colon
  {
  }

  lemma FirstColonAt(s: string, i: nat)
    requires i < |s| && s[i] == Colon && ColonFree(s[..i])
    ensures Colon in s && FirstColon(s) == i
  {
    var f := FirstColon(s);
    forall j | 0 <= j < i ensures s[j] != Colon {
      assert s[j] == s[..i][j];
    }
    forall j | 0 <= j < f ensures s[j] != Colon {
      assert s[j] == s[..f][j];
    }
  }

  /** Splitting and joining again gives back the original text. */
  lemma {:induction false} SplitThenJoin(s: string)
    ensures Join(Split(s)) == s
    decreases |s|
  {
    if Colon in s {
      var i := FirstColon(s);
      SplitThenJoin(s[i + 1..]);
      assert s == s[..i] + [Colon] + s[i + 1..];
    }
  }

  /** Joining colon-free pieces and splitting again gives back the pieces. */
  lemma {:induction false} JoinThenSplit(parts: seq<string>)
    requires |parts| >= 1
    requires forall n :: 0 <= n < |parts| ==> ColonFree(parts[n])
    ensures Split(Join(parts)) == parts
    decreases |parts|
  {
    if |parts| > 1 {
      var s := Join(parts);
      var head := parts[0];
      assert s == head + [Colon] + Join(parts[1..]);
      assert s[..|head|] == head;
      FirstColonAt(s, |head|);
      assert s[|head| + 1..] == Join(parts[1..]);
      JoinThenSplit(parts[1..]);
    }
  }

  /**
    The page recovers the cell key of a message exactly when the key is
    colon-free; it then recovers the value-and-unit text exactly when that
    text is colon-free as well (otherwise it shows only the part before the
    next colon).
  */
  lemma PayloadDecode(key: string, text: string, unit: string)
    ensures ClientDecode(Payload(key, text, unit)).key == key <==> ColonFree(key)
    ensures ColonFree(key) ==>
      (ClientDecode(Payload(key, text, unit)).text == Some(text + unit) <==> ColonFree(text + unit))
  {
    var data := Payload(key, text, unit);
    if ColonFree(key) {
      assert data == key + [Colon] + (text + unit);
      assert data[..|key|] == key;
      FirstColonAt(data, |key|);
      assert data[|key| + 1..] == text + unit;
      assert Split(data) == [key] + Split(text + unit);
    }
  }

  /** With colon-free key, value text and unit the page gets back `(key, text + unit)`. */
  lemma PayloadRoundTrip(key: string, text: string, unit: string)
    requires ColonFree(key) && ColonFree(text) && ColonFree(unit)
    ensures ClientDecode(Payload(key, text, unit)) == Update(key, Some(text + unit))
  {
    PayloadDecode(key, text, unit);
    assert ColonFree(text + unit);
  }
}
