/** What a resident door announces about itself, how it is put on the wire, and that the host hears it. */
module HandshakeAdvert {
  import opened Bytes
  import opened Text
  import opened Wires
  import opened Handshake
  import opened HandshakeStream

  /** A field of the announcement, with the key as it is written; a field the host does not understand is any
      other text. */
  datatype Field =
    | Version(key: seq<byte>, text: seq<byte>)
    | Caps(key: seq<byte>, names: seq<seq<byte>>)
    | Other(text: seq<byte>)

  function FieldText(f: Field): seq<byte> {
    match f
    case Version(key, text) => key + [0x3D] + text
    case Caps(key, names) => key + [0x3D] + JoinWith(names, 0x2C)
    case Other(text) => text
  }

  /** The key is this word, with white space around it or not. */
  predicate Spells(key: seq<byte>, word: seq<byte>) {
    TrimSpace(key) == word && EQUALS !in key && SEMICOLON !in key && BEL !in key
  }

  ghost predicate Legal(f: Field) {
    match f
    case Version(key, text) => Spells(key, [0x76, 0x65, 0x72, 0x73, 0x69, 0x6F, 0x6E]) && SEMICOLON !in text && BEL !in text
    case Caps(key, names) =>
      && Spells(key, [0x63, 0x61, 0x70, 0x73])
      && forall k :: 0 <= k < |names| ==> COMMA !in names[k] && SEMICOLON !in names[k] && BEL !in names[k]
    case Other(text) =>
      && SEMICOLON !in text && BEL !in text
      && forall key, value :: text == key + [EQUALS] + value && EQUALS !in key ==>
           TrimSpace(key) != [0x76, 0x65, 0x72, 0x73, 0x69, 0x6F, 0x6E] && TrimSpace(key) != [0x63, 0x61, 0x70, 0x73]
  }

  ghost predicate AllLegal(fields: seq<Field>) {
    forall k :: 0 <= k < |fields| ==> Legal(fields[k])
  }

  function FieldTexts(fields: seq<Field>): (texts: seq<seq<byte>>)
    ensures |texts| == |fields| && forall k :: 0 <= k < |texts| ==> texts[k] == FieldText(fields[k])
  {
    seq(|fields|, k requires 0 <= k < |fields| => FieldText(fields[k]))
  }

  function Payload(fields: seq<Field>): seq<byte> {
    JoinWith(FieldTexts(fields), 0x3B)
  }

  function Announcement(fields: seq<Field>): (a: seq<byte>)
    ensures |a| == |PREFIX| + |Payload(fields)| + 1
  {
    [0x1B, 0x5D, 0x41, 0x42, 0x42, 0x53, 0x3B] + Payload(fields) + [0x07]
  }

  /** The version announced last, if any, as far as it is legal. */
  function LastVersion(fields: seq<Field>, before: seq<byte>): seq<byte> {
    if fields == [] then before
    else LastVersion(fields[1..], if fields[0].Version? then CleanVersion(fields[0].text) else before)
  }

  /** The capabilities that a field names, white space around them dropped and empty ones left out. */
  function NamesOf(f: Field): set<seq<byte>> {
    if f.Caps? then set name | name in f.names && TrimSpace(name) != [] :: TrimSpace(name) else {}
  }

  /** All the capabilities announced. */
  function AllCaps(fields: seq<Field>): set<seq<byte>> {
    if fields == [] then {} else NamesOf(fields[0]) + AllCaps(fields[1..])
  }

  // ---------------------------------------------------------------------------
  // One field
  // ---------------------------------------------------------------------------

  lemma CapsRecovered(names: seq<seq<byte>>)
    requires forall k :: 0 <= k < |names| ==> COMMA !in names[k]
    ensures CapsIn(Split(JoinWith(names, COMMA), COMMA)) ==
            set name | name in names && TrimSpace(name) != [] :: TrimSpace(name)
  {
    hide TrimSpace, Split, JoinWith;
    SplitJoined(names, COMMA);
    if names == [] {
      NothingTrims();
    }
  }

  /** What is read of a key and a value. */
  lemma KeyAndValue(a: Advert, key: seq<byte>, value: seq<byte>)
    requires EQUALS !in key
    ensures var field := key + [EQUALS] + value;
            ReadField(a, field) ==
            if TrimSpace(key) == KEY_VERSION then a.(version := CleanVersion(value))
            else if TrimSpace(key) == KEY_CAPS then a.(caps := a.caps + CapsIn(Split(value, COMMA)))
            else a
  {
    hide TrimSpace, CleanVersion, CapsIn, Split, KEY_VERSION, KEY_CAPS;
    FieldFound(key, value);
    hide IndexOf;
  }

  lemma KeysDiffer()
    ensures KEY_VERSION == [0x76, 0x65, 0x72, 0x73, 0x69, 0x6F, 0x6E] && KEY_CAPS == [0x63, 0x61, 0x70, 0x73] && KEY_VERSION != KEY_CAPS
  {
    assert |KEY_VERSION| == 7 && |KEY_CAPS| == 4;
  }

  /** The effect of one field, whatever was read before it. */
  lemma FieldRecovered(a: Advert, f: Field)
    requires Legal(f)
    ensures ReadField(a, FieldText(f)) ==
            Advert(if f.Version? then CleanVersion(f.text) else a.version, a.caps + NamesOf(f))
  {
    KeysDiffer();
    hide KEY_VERSION, KEY_CAPS, TrimSpace, Split, JoinWith, CapsIn, CleanVersion, ReadField;
    match f
    case Version(key, text) =>
      KeyAndValue(a, key, text);
    case Caps(key, names) =>
      KeyAndValue(a, key, JoinWith(names, COMMA));
      CapsRecovered(names);
    case Other(text) =>
      OtherIgnored(a, text);
  }

  lemma OtherIgnored(a: Advert, text: seq<byte>)
    requires Legal(Other(text))
    ensures ReadField(a, text) == a
  {
    hide TrimSpace, Split, CapsIn, CleanVersion;
    var i := IndexOf(text, EQUALS);
    hide IndexOf;
    if i < |text| {
      assert text == text[..i] + [EQUALS] + text[i + 1..];
      assert EQUALS !in text[..i];
    }
  }

  lemma FieldIsSafe(f: Field)
    requires Legal(f)
    ensures SEMICOLON !in FieldText(f) && BEL !in FieldText(f)
  {
    hide TrimSpace, JoinWith;
    if f.Caps? {
      JoinedHolds(f.names, COMMA, SEMICOLON);
      JoinedHolds(f.names, COMMA, BEL);
    }
  }

  // ---------------------------------------------------------------------------
  // The whole announcement
  // ---------------------------------------------------------------------------

  lemma {:induction false} FieldsRecovered(a: Advert, fields: seq<Field>)
    requires AllLegal(fields)
    ensures ReadFields(a, FieldTexts(fields)) == Advert(LastVersion(fields, a.version), a.caps + AllCaps(fields))
    decreases |fields|
  {
    hide Legal, FieldText, ReadField, NamesOf;
    if fields != [] {
      FieldRecovered(a, fields[0]);
      assert FieldTexts(fields)[1..] == FieldTexts(fields[1..]);
      FieldsRecovered(ReadField(a, FieldText(fields[0])), fields[1..]);
    }
  }

  /** Round trip: the host reads out of an announcement the version named last and every capability, and
      nothing else, wherever fields it does not know stand between them. */
  lemma AdvertRecovered(fields: seq<Field>)
    requires AllLegal(fields)
    ensures ParsePayload(Payload(fields)) == Advert(LastVersion(fields, []), AllCaps(fields))
  {
    hide Legal, FieldText, Split, JoinWith;
    forall k | 0 <= k < |fields| ensures SEMICOLON !in FieldTexts(fields)[k] {
      FieldIsSafe(fields[k]);
    }
    SplitJoined(FieldTexts(fields), SEMICOLON);
    FieldsRecovered(Advert([], {}), fields);
    if fields == [] {
      assert ReadFields(SILENT, [[]]) == SILENT;
    }
  }

  lemma PayloadIsSafe(fields: seq<Field>)
    requires AllLegal(fields)
    ensures BEL !in Payload(fields)
  {
    hide Legal, FieldText, JoinWith;
    forall k | 0 <= k < |fields| ensures BEL !in FieldTexts(fields)[k] {
      FieldIsSafe(fields[k]);
    }
    JoinedHolds(FieldTexts(fields), SEMICOLON, BEL);
  }

  /** However the door's stream arrives, an announcement of at most 256 bytes is heard as it was meant and
      taken out, and the caller gets exactly the game's bytes after it. */
  lemma AnnouncementHeard(fields: seq<Field>, game: seq<byte>, raw: seq<RawRead>)
    requires AllLegal(fields) && |Announcement(fields)| <= 256
    requires Arrives(Announcement(fields) + game, raw)
    ensures ResultOf(raw) == Result(true, Advert(LastVersion(fields, []), AllCaps(fields)), game)
  {
    hide AllLegal, Arrives, ResultOf, ParsePayload, Payload;
    var head := PREFIX + Payload(fields);
    var s := Announcement(fields) + game;
    PayloadIsSafe(fields);
    assert BEL !in PREFIX;
    IndexOfFirst(head, BEL, game);
    assert s == head + [BEL] + game;
    assert PREFIX <= s;
    assert s[|PREFIX|..|head|] == Payload(fields) && s[|head| + 1..] == game;
    AdvertRecovered(fields);
    hide IndexOf;
    assert SentinelEnd(s) == Some(|head|);
    SettledResult(s, raw);
  }
}
