/** Version 9 messages, and the sets that a collector skips or stops at. */
module IpfixNetflow {
  import opened Bytes
  import opened Options
  import opened IpfixWire
  import opened IpfixRoundTrip

  // ---------------------------------------------------------------- version 9

  /** The id of a set in version 9: templates go in sets of id 0. */
  function SetId9(c: Content): nat {
    if c.TemplateOf? then 0 else c.t.tid
  }

  function Wire9(info: Info, cs: seq<Content>): bytes {
    if cs == [] then [] else SetBytes(SetId9(cs[0]), ContentBody(info, cs[0])) + Wire9(info, cs[1..])
  }

  /** Templates have no scope fields here. */
  ghost predicate Fitting9(info: Info, cs: seq<Content>) {
    forall c :: c in cs ==> Fitting(info, c) && c.t.nscope == 0
  }

  lemma TemplateRecord9(t: Template)
    requires ValidTemplate(t) && t.nscope == 0
    ensures ReadTemplateRecord(0, TemplateBody(t)) == Defines(t, |TemplateBody(t)|)
  {
    hide ReadFields, FieldSpecs, TemplateHead, U16;
    ReadTemplateBack(t, []);
    assert TemplateBody(t) + [] == TemplateBody(t);
  }

  lemma TemplateSet9(m: Table, t: Template)
    requires ValidTemplate(t) && t.nscope == 0
    ensures ReadTemplateSet(m, 0, TemplateBody(t)) == m[t.tid := t]
  {
    hide TemplateBody, ReadTemplateRecord;
    var s := TemplateBody(t);
    TemplateRecord9(t);
    assert s[|s|..] == [];
  }

  /** A template set of id 0 is read as its template, and a set of records as its records, whatever follows. */
  lemma ReadContent9(info: Info, m: Table, c: Content, r: bytes, count: nat, err: bool)
    requires Fitting(info, c) && c.t.nscope == 0 && Known(m, c) && count > 0
    ensures ReadSets(info, m, SetBytes(SetId9(c), ContentBody(info, c)) + r, count, err)
      == Before(DataOf(c), ReadSets(info, TableAfter(m, c), r, count - 1, err))
  {
    BodyIsLong(info, c);
    var id, body := SetId9(c), ContentBody(info, c);
    if c.TemplateOf? {
      hide ReadTemplateSet, TemplateBody, ValidTemplate;
      TemplateSet9(m, c.t);
      TemplateReads(info, m, id, body, r, count, err);
      var p := ReadSets(info, TableAfter(m, c), r, count - 1, err);
      assert [] + p.records == p.records;
    } else {
      hide ReadDataSet, RecordsBytes;
      ReadRecordsBack(info, c.t, [], c.records, r);
      RecordsRead(info, m, id, body, r, count, err, DataOf(c));
    }
  }

  lemma {:induction false} ReadSets9(info: Info, m: Table, cs: seq<Content>, more: bytes)
    requires Fitting9(info, cs) && Ready(m, cs)
    ensures ReadSets(info, m, Wire9(info, cs) + more, |cs|, false) == Parsed(TableAfterAll(m, cs), AllData(cs), Fine)
    decreases |cs|
  {
    hide Fitting, ContentBody, TableAfter, Known, SetBytes, DataOf, ReadSets;
    if cs == [] {
      NoSets(info, m, [] + more);
    } else {
      var m1, rest := TableAfter(m, cs[0]), Wire9(info, cs[1..]);
      assert cs[0] in cs && forall c :: c in cs[1..] ==> c in cs;
      Associative(SetBytes(SetId9(cs[0]), ContentBody(info, cs[0])), rest, more);
      ReadSets9(info, m1, cs[1..], more);
      ReadContent9(info, m, cs[0], rest + more, |cs|, false);
    }
  }

  lemma NoSets(info: Info, m: Table, s: bytes)
    ensures ReadSets(info, m, s, 0, false) == Parsed(m, [], Fine)
  {
  }

  /** A message of version 9, with 20 bytes of header and the number of its sets in the second two bytes, is read as the
      templates and records of so many sets. What follows them is not read. */
  lemma ReadMessage9(info: Info, m: Table, cs: seq<Content>, hdr: bytes, more: bytes)
    requires Fitting9(info, cs) && Ready(m, cs)
    requires |hdr| == 20 && Read16(hdr, 0) == 9 && Read16(hdr, 2) == |cs|
    ensures ReadMessage(info, m, hdr + Wire9(info, cs) + more) == Parsed(TableAfterAll(m, cs), AllData(cs), Fine)
  {
    hide ReadSets, Wire9;
    var msg, body := hdr + Wire9(info, cs) + more, Wire9(info, cs) + more;
    Associative(hdr, Wire9(info, cs), more);
    assert msg[20..] == body && msg[0] == hdr[0] && msg[1] == hdr[1] && msg[2] == hdr[2] && msg[3] == hdr[3];
    ReadSets9(info, m, cs, more);
  }

  // ---------------------------------------------------------------- headers

  /** Only versions 9 and 10 are read, and only with a whole header: of 20 and 16 bytes. */
  lemma OtherMessagesFail(info: Info, m: Table, msg: bytes)
    requires |msg| >= 2
    requires !(Read16(msg, 0) == 10 && |msg| >= 16) && !(Read16(msg, 0) == 9 && |msg| >= 20)
    ensures ReadMessage(info, m, msg) == Parsed(m, [], Failed)
  {
  }

  // ---------------------------------------------------------------- sets of templates

  /** Sets of ids 0 to 3 are read as templates. */
  lemma TemplateSetsAreRead(info: Info, m: Table, id: nat, body: bytes, r: bytes, count: nat, err: bool)
    requires id <= 3 && body != [] && |body| + 4 < 0x1_0000 && count > 0
    ensures ReadSets(info, m, SetBytes(id, body) + r, count, err)
      == ReadSets(info, ReadTemplateSet(m, id, body), r, count - 1, err)
  {
    hide ReadTemplateSet, SetBytes, ReadSets;
    TemplateReads(info, m, id, body, r, count, err);
  }

  // ---------------------------------------------------------------- sets that are skipped

  /** Sets of ids 4 to 255 change nothing. */
  lemma ReservedSetsAreSkipped(info: Info, m: Table, id: nat, body: bytes, r: bytes, count: nat, err: bool)
    requires 4 <= id <= 255 && |body| + 4 < 0x1_0000 && count > 0
    ensures ReadSets(info, m, SetBytes(id, body) + r, count, err) == ReadSets(info, m, r, count - 1, err)
  {
    hide SetBytes, Read16;
    SetHeadBack(id, body, r);
    assert (body + r)[|body|..] == r;
  }

  /** A set of records without its template is skipped, and makes reading the message fail. */
  lemma UnknownSetsAreSkipped(info: Info, m: Table, id: nat, body: bytes, r: bytes, count: nat, err: bool)
    requires 256 <= id < 0x1_0000 && id !in m && body != [] && |body| + 4 < 0x1_0000 && count > 0
    ensures ReadSets(info, m, SetBytes(id, body) + r, count, err) == ReadSets(info, m, r, count - 1, true)
  {
    hide SetBytes, Read16;
    SetHeadBack(id, body, r);
    assert (body + r)[|body|..] == r;
  }

  /** A message that has had such a set fails, unless a set that is longer than the message comes after it: then reading
      stops there, and nothing is said. */
  lemma ErrorsEndInFailure(info: Info, m: Table, s: bytes, count: nat)
    requires |s| <= 4 || count == 0
    ensures ReadSets(info, m, s, count, true) == Parsed(m, [], Failed)
    ensures ReadSets(info, m, s, count, false) == Parsed(m, [], Fine)
  {
  }

  /** Of a set whose length does not even cover its header, only the header is skipped. */
  lemma ShortSetsAreSkipped(info: Info, m: Table, id: nat, len: nat, r: bytes, count: nat, err: bool)
    requires id < 0x1_0000 && len < 4 && r != [] && count > 0
    ensures ReadSets(info, m, U16(id) + (U16(len) + r), count, err) == ReadSets(info, m, r, count - 1, err)
  {
    hide U16, Read16;
    ReadTwo(id, len, r);
  }

  lemma LongSetsEnd(info: Info, m: Table, id: nat, len: nat, r: bytes, count: nat, err: bool)
    requires id < 0x1_0000 && 4 + |r| < len < 0x1_0000 && r != [] && count > 0
    ensures ReadSets(info, m, U16(id) + (U16(len) + r), count, err) == Parsed(m, [], Fine)
  {
    hide U16, Read16;
    ReadTwo(id, len, r);
  }

  // ---------------------------------------------------------------- options templates of version 9

  lemma {:induction false} FieldsTakeFour(s: bytes, n: nat)
    ensures ReadFields(s, n).Some? ==> ReadFields(s, n).value.1 >= 4 * n && |s| >= 4 * n
  {
  }

  /** An options template of version 9 gives the bytes of its scope fields and of its other fields (section 6.1 of RFC
      3954). The collector refuses it when these are fewer than the bytes left in the set, which count the six bytes of
      its own head, so that it reads a definition only where both numbers are three more than a multiple of four. */
  lemma OptionsTemplate9Lengths(s: bytes)
    ensures ReadTemplateRecord(1, s).Defines? ==>
      Read16(s, 2) % 4 == 3 && Read16(s, 4) % 4 == 3 && |s| == Read16(s, 2) + Read16(s, 4)
  {
    hide ReadFields, Read16;
    if |s| >= 6 {
      var n := Read16(s, 2) / 4 + Read16(s, 4) / 4;
      FieldsTakeFour(s[6..], n);
    }
  }

  /** So no well-formed one is read: its lengths are multiples of four. */
  lemma OptionsTemplates9AreNotRead(m: Table, s: bytes)
    requires |s| > 4 && (|s| >= 6 ==> Read16(s, 2) % 4 == 0 && Read16(s, 4) % 4 == 0)
    ensures !ReadTemplateRecord(1, s).Defines?
    ensures ReadTemplateRecord(1, s).Unreadable? || ReadTemplateRecord(1, s).Malformed?
    ensures ReadTemplateSet(m, 1, s) == if |s| >= 6 && Read16(s, 2) + Read16(s, 4) >= |s| then m - {Read16(s, 0)} else m
  {
    hide ReadFields, Read16;
    OptionsTemplate9Lengths(s);
  }
}
