/** Reading what an exporter writes: templates, records, sets and messages come back as they were. */
module IpfixRoundTrip {
  import opened Bytes
  import opened IpfixWire
  import opened Options

  // ---------------------------------------------------------------- templates

  /** Two numbers of two bytes each. */
  lemma ReadTwo(m: nat, n: nat, r: bytes)
    requires m < 0x1_0000 && n < 0x1_0000
    ensures var s := U16(m) + (U16(n) + r); Read16(s, 0) == m && Read16(s, 2) == n && s[4..] == r
  {
    Read16Front(m, U16(n) + r);
    Read16Front(n, r);
    Read16Behind(U16(m), U16(n) + r, 0);
  }

  lemma ReadFieldBack(f: Field, r: bytes)
    requires ValidField(f)
    ensures ReadField(FieldSpec(f) + r) == Some((f, |FieldSpec(f)|))
  {
    var b, c := U16(f.flength), U32(f.eno);
    if f.eno == NOENO {
      Associative(U16(f.ftype), b, r);
      ReadTwo(f.ftype, f.flength, r);
    } else {
      var a := U16(f.ftype + VENDOR_BIT);
      Associative(a, b + c, r);
      Associative(b, c, r);
      ReadTwo(f.ftype + VENDOR_BIT, f.flength, c + r);
      Read32Front(f.eno, r);
      Read32Behind(b, c + r, 0);
      Read32Behind(a, b + (c + r), 2);
    }
  }

  lemma {:induction false} ReadFieldsBack(fields: seq<Field>, r: bytes)
    requires forall f :: f in fields ==> ValidField(f)
    ensures ReadFields(FieldSpecs(fields) + r, |fields|) == Some((fields, |FieldSpecs(fields)|))
  {
    hide ReadField, FieldSpec, ReadFields, FieldSpecs;
    if fields == [] {
      NoFields(r);
    } else {
      var rest := FieldSpecs(fields[1..]);
      assert fields[0] in fields && forall f :: f in fields[1..] ==> f in fields;
      ReadFieldBack(fields[0], rest + r);
      ReadFieldsBack(fields[1..], r);
      FieldsTurn(fields, rest, r);
    }
  }

  lemma NoFields(r: bytes)
    ensures ReadFields(FieldSpecs([]) + r, 0) == Some(([], 0)) && FieldSpecs([]) == []
  {
  }

  lemma FieldsTurn(fields: seq<Field>, rest: bytes, r: bytes)
    requires fields != [] && rest == FieldSpecs(fields[1..])
    requires ReadField(FieldSpec(fields[0]) + (rest + r)) == Some((fields[0], |FieldSpec(fields[0])| as nat))
    requires ReadFields(rest + r, |fields| - 1) == Some((fields[1..], |rest| as nat))
    ensures ReadFields(FieldSpecs(fields) + r, |fields|) == Some((fields, |FieldSpecs(fields)|))
  {
    hide ReadField, FieldSpec;
    var e := FieldSpec(fields[0]);
    Associative(e, rest, r);
    assert (e + (rest + r))[|e|..] == rest + r;
    assert [fields[0]] + fields[1..] == fields;
  }

  function TemplateSetId(t: Template): nat {
    if t.nscope > 0 then SETID_OPTTEMPLATE else SETID_TEMPLATE
  }

  lemma ReadHeadBack(t: Template, r: bytes)
    requires ValidTemplate(t)
    ensures ReadRecordHead(TemplateSetId(t), TemplateHead(t) + r)
      == Some(RecordHead(t.tid, |t.fields|, t.nscope, |TemplateHead(t)|))
  {
    var a, b, c := U16(t.tid), U16(|t.fields|), U16(t.nscope);
    if t.nscope > 0 {
      Associative(a, b + c, r);
      Associative(b, c, r);
      ReadTwo(t.tid, |t.fields|, c + r);
      Read16Front(t.nscope, r);
      Read16Behind(b, c + r, 0);
      Read16Behind(a, b + (c + r), 2);
    } else {
      Associative(a, b, r);
      ReadTwo(t.tid, |t.fields|, r);
    }
  }

  lemma ReadTemplateBack(t: Template, r: bytes)
    requires ValidTemplate(t)
    ensures ReadTemplateRecord(TemplateSetId(t), TemplateBody(t) + r) == Defines(t, |TemplateBody(t)|)
  {
    hide ReadRecordHead, ReadFields, TemplateHead, FieldSpecs;
    var h, fs := TemplateHead(t), FieldSpecs(t.fields);
    Associative(h, fs, r);
    ReadHeadBack(t, fs + r);
    ReadFieldsBack(t.fields, r);
    assert (h + (fs + r))[|h|..] == fs + r;
  }

  /** A set of one template record defines that template. */
  lemma ReadTemplateSetBack(m: Table, t: Template)
    requires ValidTemplate(t)
    ensures ReadTemplateSet(m, TemplateSetId(t), TemplateBody(t)) == m[t.tid := t]
  {
    hide TemplateBody, ReadTemplateRecord;
    var s := TemplateBody(t);
    assert s + [] == s && s[|s|..] == [];
    ReadTemplateBack(t, []);
  }

  // ---------------------------------------------------------------- records

  lemma ReadLengthBack(f: Field, len: nat, r: bytes)
    requires len < 0x1_0000 && (f.flength != VARLEN ==> len == f.flength)
    ensures ReadLength(f, LengthPrefix(f, len) + r) == Some((len, |LengthPrefix(f, len)|))
  {
    if f.flength == VARLEN && len > 254 {
      Associative([0xff], U16(len), r);
      Read16Front(len, r);
      Read16Behind([0xff], U16(len) + r, 0);
    }
  }

  lemma ReadValueBack(info: Info, f: Field, v: bytes, r: bytes, left: int)
    requires Fits(info, f, v) && left >= |v|
    ensures var e := FieldBytes(info, f, v);
      && ReadValue(info, f, e + r, left) == ValueRead(v, LengthPrefix(f, |v|) + v)
      && |LengthPrefix(f, |v|) + v| == |e| && (e + r)[|e|..] == r
  {
    var c := info(f.eno, f.ftype);
    var p, e := LengthPrefix(f, |v|), Coded(c, v);
    CodedTwiceIff(c, v);
    hide Coded, LengthPrefix, ReadLength;
    Associative(p, e, r);
    ReadLengthBack(f, |v|, e + r);
    assert (p + (e + r))[|p|..|p| + |v|] == e && (p + (e + r))[..|p|] == p;
  }

  /** A record as it stands in the message after its values have been decoded. */
  function RecordImage(fields: seq<Field>, vals: seq<bytes>): bytes
    decreases |vals|
  {
    if vals == [] || fields == [] then [] else
      (LengthPrefix(fields[0], |vals[0]|) + vals[0]) + RecordImage(fields[1..], vals[1..])
  }

  function ValueBytes(vals: seq<bytes>): nat {
    if vals == [] then 0 else |vals[0]| + ValueBytes(vals[1..])
  }

  ghost predicate FitAll(info: Info, fields: seq<Field>, vals: seq<bytes>) {
    |vals| == |fields| && (vals != [] ==> Fits(info, fields[0], vals[0]) && FitAll(info, fields[1..], vals[1..]))
  }

  lemma {:induction false} AllFitIsFitAll(info: Info, fields: seq<Field>, vals: seq<bytes>)
    requires AllFit(info, fields, vals)
    ensures FitAll(info, fields, vals)
    decreases |vals|
  {
    hide Fits;
    if vals != [] {
      assert AllFit(info, fields[1..], vals[1..]);
      AllFitIsFitAll(info, fields[1..], vals[1..]);
    }
  }

  lemma ReadRecordStep(info: Info, fields: seq<Field>, s: bytes, left: int, v: bytes, image: bytes)
    requires fields != [] && ReadValue(info, fields[0], s, left) == ValueRead(v, image)
    ensures ReadRecord(info, fields, s, left)
      == Ahead(v, image, ReadRecord(info, fields[1..], s[|image|..], left - |v|))
  {
    hide ReadValue;
  }

  lemma ReadNoFields(info: Info, s: bytes, left: int)
    ensures ReadRecord(info, [], s, left) == RecordRead([], [])
  {
  }

  lemma {:induction false} ReadRecordBack(info: Info, fields: seq<Field>, vals: seq<bytes>, left: int, more: bytes)
    requires FitAll(info, fields, vals) && left >= ValueBytes(vals)
    ensures ReadRecord(info, fields, RecordBytes(info, fields, vals) + more, left)
      == RecordRead(vals, RecordImage(fields, vals))
    ensures |RecordImage(fields, vals)| == |RecordBytes(info, fields, vals)|
    decreases |vals|
  {
    hide Fits, FieldBytes, ReadRecord, ReadValue, LengthPrefix;
    ReadNoFields(info, more, left);
    if vals == [] {
      assert [] + more == more;
    } else {
      var rest := RecordBytes(info, fields[1..], vals[1..]);
      var e, image := FieldBytes(info, fields[0], vals[0]), LengthPrefix(fields[0], |vals[0]|) + vals[0];
      Associative(e, rest, more);
      ReadValueBack(info, fields[0], vals[0], rest + more, left);
      ReadRecordBack(info, fields[1..], vals[1..], left - |vals[0]|, more);
      ReadRecordStep(info, fields, e + (rest + more), left, vals[0], image);
      assert [vals[0]] + vals[1..] == vals;
    }
  }

  lemma {:induction false} ValuesAreInRecord(info: Info, fields: seq<Field>, vals: seq<bytes>)
    requires |vals| == |fields|
    ensures ValueBytes(vals) <= |RecordBytes(info, fields, vals)|
    decreases |vals|
  {
    if vals != [] {
      ValuesAreInRecord(info, fields[1..], vals[1..]);
    }
  }

  // ---------------------------------------------------------------- sets

  /** What an exporter puts in one set: a template, or records of one template. */
  datatype Content = TemplateOf(t: Template) | RecordsOf(t: Template, records: seq<seq<bytes>>)

  /** A record of this template that can be written, and is not taken for padding. */
  ghost predicate Sendable(info: Info, t: Template, vals: seq<bytes>) {
    AllFit(info, t.fields, vals) && |RecordBytes(info, t.fields, vals)| > 4
  }

  ghost predicate AllSendable(info: Info, t: Template, records: seq<seq<bytes>>) {
    forall r :: r in records ==> Sendable(info, t, r)
  }

  function RecordsBytes(info: Info, t: Template, records: seq<seq<bytes>>): bytes {
    if records == [] then [] else
      RecordBytes(info, t.fields, records[0]) + RecordsBytes(info, t, records[1..])
  }

  lemma {:induction false} RecordsBytesAppend(info: Info, t: Template, records: seq<seq<bytes>>, r: seq<bytes>)
    ensures RecordsBytes(info, t, records + [r]) == RecordsBytes(info, t, records) + RecordBytes(info, t.fields, r)
  {
    hide RecordBytes;
    if records == [] {
      assert records + [r] == [r] && [r][1..] == [];
      assert RecordBytes(info, t.fields, r) + [] == [] + RecordBytes(info, t.fields, r);
    } else {
      RecordsBytesAppend(info, t, records[1..], r);
      assert (records + [r])[1..] == records[1..] + [r];
      Associative(RecordBytes(info, t.fields, records[0]), RecordsBytes(info, t, records[1..]), RecordBytes(info, t.fields, r));
    }
  }

  function Data(tid: nat, records: seq<seq<bytes>>): (d: seq<Datum>)
    ensures |d| == |records|
  {
    if records == [] then [] else [Datum(tid, records[0])] + Data(tid, records[1..])
  }

  ghost predicate ValidContent(info: Info, c: Content) {
    ValidTemplate(c.t) && (c.RecordsOf? ==> c.records != [] && AllSendable(info, c.t, c.records))
  }

  function ContentId(c: Content): nat {
    if c.TemplateOf? then TemplateSetId(c.t) else c.t.tid
  }

  function ContentBody(info: Info, c: Content): bytes {
    match c
    case TemplateOf(t) => TemplateBody(t)
    case RecordsOf(t, records) => RecordsBytes(info, t, records)
  }

  /** A set: its id, its length with these four bytes, and its body. */
  function SetBytes(id: nat, body: bytes): (s: bytes)
    ensures |s| == 4 + |body|
  {
    U16(id) + (U16(|body| + 4) + body)
  }

  lemma SetHeadBack(id: nat, body: bytes, r: bytes)
    requires id < 0x1_0000 && |body| + 4 < 0x1_0000
    ensures var s := SetBytes(id, body) + r;
      |s| >= 4 && Read16(s, 0) == id && Read16(s, 2) == |body| + 4 && s[4..] == body + r
  {
    var a, b := U16(id), U16(|body| + 4);
    Associative(a, b + body, r);
    Associative(b, body, r);
    ReadTwo(id, |body| + 4, body + r);
  }

  lemma ReadDataStep(info: Info, t: Template, last: bytes, e: bytes, vals: seq<bytes>, image: bytes, rest: bytes,
                     left: int)
    requires -|last| <= 4 < left <= |e + rest| && |e| == |image| > 0
    requires ReadRecord(info, t.fields, e + rest, left) == RecordRead(vals, image)
    ensures ReadDataSet(info, t, last, e + rest, left)
      == Follow(Datum(t.tid, vals), ReadDataSet(info, t, image, rest, left - |e|))
  {
    hide ReadRecord;
    assert (e + rest)[|e|..] == rest;
  }

  lemma ReadSendableBack(info: Info, t: Template, vals: seq<bytes>, left: int, more: bytes)
    requires Sendable(info, t, vals) && left >= |RecordBytes(info, t.fields, vals)|
    ensures var image := RecordImage(t.fields, vals);
      && ReadRecord(info, t.fields, RecordBytes(info, t.fields, vals) + more, left) == RecordRead(vals, image)
      && |image| == |RecordBytes(info, t.fields, vals)| > 4
  {
    hide Fits, RecordBytes, ReadRecord, RecordImage;
    AllFitIsFitAll(info, t.fields, vals);
    ValuesAreInRecord(info, t.fields, vals);
    ReadRecordBack(info, t.fields, vals, left, more);
  }

  /** Reading a set of records yields the records, and leaves what follows the set as it was. */
  lemma {:induction false} ReadRecordsBack(info: Info, t: Template, last: bytes, records: seq<seq<bytes>>, more: bytes)
    requires AllSendable(info, t, records)
    ensures ReadDataSet(info, t, last, RecordsBytes(info, t, records) + more, |RecordsBytes(info, t, records)|)
      == SetRead(Data(t.tid, records), more, Fine)
    decreases |records|
  {
    hide Sendable, ReadRecord, RecordBytes, RecordImage, ReadDataSet;
    if records == [] {
      ReadNoRecords(info, t, last, more);
      assert [] + more == more;
    } else {
      var e, rest := RecordBytes(info, t.fields, records[0]), RecordsBytes(info, t, records[1..]);
      ReadSendableBack(info, t, records[0], |e + rest|, rest + more);
      ReadRecordsBack(info, t, RecordImage(t.fields, records[0]), records[1..], more);
      Associative(e, rest, more);
      ReadDataStep(info, t, last, e, records[0], RecordImage(t.fields, records[0]), rest + more, |e + rest|);
    }
  }

  lemma ReadNoRecords(info: Info, t: Template, last: bytes, s: bytes)
    ensures ReadDataSet(info, t, last, s, 0) == SetRead([], s, Fine)
  {
  }

  lemma SendableIsLong(info: Info, t: Template, vals: seq<bytes>)
    requires Sendable(info, t, vals)
    ensures |RecordBytes(info, t.fields, vals)| > 4
  {
  }

  /** The table after a set, and the records in it. */
  function TableAfter(m: Table, c: Content): Table {
    if c.TemplateOf? then m[c.t.tid := c.t] else m
  }

  function DataOf(c: Content): seq<Datum> {
    if c.RecordsOf? then Data(c.t.tid, c.records) else []
  }

  ghost predicate Known(m: Table, c: Content) {
    c.RecordsOf? ==> c.t.tid in m && m[c.t.tid] == c.t
  }

  ghost predicate Fitting(info: Info, c: Content) {
    ValidContent(info, c) && |ContentBody(info, c)| + 4 < 0x1_0000 && ContentId(c) < 0x1_0000
  }

  lemma BodyIsLong(info: Info, c: Content)
    requires ValidContent(info, c)
    ensures |ContentBody(info, c)| > 4 && ContentId(c) < 0x1_0000
  {
    if c.RecordsOf? {
      assert c.records[0] in c.records;
      SendableIsLong(info, c.t, c.records[0]);
    }
  }

  /** A set is read as what was put into it, whatever follows. */
  lemma ReadContentBack(info: Info, m: Table, c: Content, r: bytes, count: nat, err: bool)
    requires Fitting(info, c) && Known(m, c) && count > 0
    ensures ReadSets(info, m, SetBytes(ContentId(c), ContentBody(info, c)) + r, count, err)
      == Before(DataOf(c), ReadSets(info, TableAfter(m, c), r, count - 1, err))
  {
    BodyIsLong(info, c);
    var id, body := ContentId(c), ContentBody(info, c);
    SetHeadBack(id, body, r);
    assert (body + r)[|body|..] == r && (body + r)[..|body|] == body;
    if c.TemplateOf? {
      ReadTemplateSetBack(m, c.t);
      TemplateReads(info, m, id, body, r, count, err);
      var p := ReadSets(info, TableAfter(m, c), r, count - 1, err);
      assert [] + p.records == p.records;
    } else {
      ReadRecordsBack(info, c.t, [], c.records, r);
      RecordsRead(info, m, id, body, r, count, err, DataOf(c));
    }
  }

  lemma TemplateReads(info: Info, m: Table, id: nat, body: bytes, r: bytes, count: nat, err: bool)
    requires IsTemplateSet(id) && 0 < |body| && |body| + 4 < 0x1_0000 && count > 0
    ensures ReadSets(info, m, SetBytes(id, body) + r, count, err)
      == ReadSets(info, ReadTemplateSet(m, id, body), r, count - 1, err)
  {
    hide ReadTemplateSet, SetBytes, Read16;
    SetHeadBack(id, body, r);
    assert (body + r)[|body|..] == r && (body + r)[..|body|] == body;
  }

  lemma RecordsRead(info: Info, m: Table, id: nat, body: bytes, r: bytes, count: nat, err: bool, d: seq<Datum>)
    requires 256 <= id < 0x1_0000 && id in m && 0 < |body| && |body| + 4 < 0x1_0000 && count > 0
    requires ReadDataSet(info, m[id], [], body + r, |body|) == SetRead(d, r, Fine)
    ensures ReadSets(info, m, SetBytes(id, body) + r, count, err) == Before(d, ReadSets(info, m, r, count - 1, err))
  {
    hide ReadDataSet, SetBytes, Read16;
    SetHeadBack(id, body, r);
    assert (body + r)[|body|..] == r;
  }

  // ---------------------------------------------------------------- messages

  function Wire(info: Info, cs: seq<Content>): bytes {
    if cs == [] then [] else SetBytes(ContentId(cs[0]), ContentBody(info, cs[0])) + Wire(info, cs[1..])
  }

  function TableAfterAll(m: Table, cs: seq<Content>): Table
    decreases |cs|
  {
    if cs == [] then m else TableAfterAll(TableAfter(m, cs[0]), cs[1..])
  }

  function AllData(cs: seq<Content>): seq<Datum> {
    if cs == [] then [] else DataOf(cs[0]) + AllData(cs[1..])
  }

  /** Every set of records stands where its template is known. */
  ghost predicate Ready(m: Table, cs: seq<Content>)
    decreases |cs|
  {
    cs != [] ==> Known(m, cs[0]) && Ready(TableAfter(m, cs[0]), cs[1..])
  }

  ghost predicate AllFitting(info: Info, cs: seq<Content>) {
    forall c :: c in cs ==> Fitting(info, c)
  }

  /** Reading the sets of a message gives the records put into them, in order, and the templates. */
  lemma {:induction false} ReadSetsBack(info: Info, m: Table, cs: seq<Content>, count: nat)
    requires AllFitting(info, cs) && Ready(m, cs) && count >= |cs|
    ensures ReadSets(info, m, Wire(info, cs), count, false) == Parsed(TableAfterAll(m, cs), AllData(cs), Fine)
    decreases |cs|
  {
    hide Fitting, ContentBody, TableAfter, Known, SetBytes, DataOf;
    if cs != [] {
      var m1, rest := TableAfter(m, cs[0]), Wire(info, cs[1..]);
      ReadSetsBack(info, m1, cs[1..], count - 1);
      ReadContentBack(info, m, cs[0], rest, count, false);
    }
  }

  /** A message in the IPFIX version of the protocol, section 3.1 of RFC 7011. */
  function Header(length: nat, now: nat, seqno: nat, sourceid: nat): (s: bytes)
    ensures |s| == HDR_BYTES
  {
    U16(VERSION) + (U16(length) + (U32(now) + (U32(seqno) + U32(sourceid))))
  }

  lemma HeaderBack(length: nat, now: nat, seqno: nat, sourceid: nat, r: bytes)
    requires length < 0x1_0000 && now < 0x1_0000_0000 && seqno < 0x1_0000_0000 && sourceid < 0x1_0000_0000
    ensures var s := Header(length, now, seqno, sourceid) + r;
      && |s| == HDR_BYTES + |r| && s[HDR_BYTES..] == r
      && Read16(s, 0) == VERSION && Read16(s, 2) == length
      && Read32(s, 4) == now && Read32(s, 8) == seqno && Read32(s, 12) == sourceid
  {
    var a, b, c, d, e := U16(VERSION), U16(length), U32(now), U32(seqno), U32(sourceid);
    hide U16, U32, Read32;
    Associative(a, b + (c + (d + e)), r);
    Associative(b, c + (d + e), r);
    Associative(c, d + e, r);
    Associative(d, e, r);
    ReadTwo(VERSION, length, c + (d + (e + r)));
    Read32Front(now, d + (e + r));
    Read32Behind(b, c + (d + (e + r)), 0);
    Read32Behind(a, b + (c + (d + (e + r))), 2);
    Read32Front(sourceid, r);
    Read32Behind(d, e + r, 0);
    Read32Behind(c, d + (e + r), 4);
    Read32Behind(b, c + (d + (e + r)), 8);
    Read32Behind(a, b + (c + (d + (e + r))), 10);
    Read32Front(seqno, e + r);
    Read32Behind(c, d + (e + r), 0);
    Read32Behind(b, c + (d + (e + r)), 4);
    Read32Behind(a, b + (c + (d + (e + r))), 6);
  }

  lemma {:induction false} WireIsLong(info: Info, cs: seq<Content>)
    requires AllFitting(info, cs)
    ensures |Wire(info, cs)| >= |cs|
  {
    if cs != [] {
      WireIsLong(info, cs[1..]);
    }
  }

  lemma ReadMessageBack(info: Info, m: Table, cs: seq<Content>, hdr: bytes)
    requires AllFitting(info, cs) && Ready(m, cs) && |hdr| == HDR_BYTES && Read16(hdr + Wire(info, cs), 0) == VERSION
    ensures ReadMessage(info, m, hdr + Wire(info, cs)) == Parsed(TableAfterAll(m, cs), AllData(cs), Fine)
  {
    hide ReadSets, Wire;
    WireIsLong(info, cs);
    ReadSetsBack(info, m, cs, |hdr + Wire(info, cs)|);
    assert (hdr + Wire(info, cs))[HDR_BYTES..] == Wire(info, cs);
  }

  // ---------------------------------------------------------------- runs

  /** What a collector has made of a run of messages from a fresh start. */
  function Collected(info: Info, msgs: seq<bytes>): Parsed {
    if msgs == [] then Parsed(map[], [], Fine) else
      var p, msg := Collected(info, msgs[..|msgs| - 1]), msgs[|msgs| - 1];
      if |msg| < 2 then p.(end := Failed) else
        var q := ReadMessage(info, p.table, msg);
        Parsed(q.table, p.records + q.records, if p.end == Fine then q.end else p.end)
  }

  lemma CollectedMore(info: Info, msgs: seq<bytes>, msg: bytes, q: Parsed)
    requires |msg| >= 2 && Collected(info, msgs).end == Fine
    requires ReadMessage(info, Collected(info, msgs).table, msg) == q
    ensures Collected(info, msgs + [msg]) == Parsed(q.table, Collected(info, msgs).records + q.records, q.end)
  {
    hide ReadMessage;
    assert (msgs + [msg])[..|msgs|] == msgs;
  }

  /** Every message has its own length in its header, and as its number the count of the data records in all
      messages before it, modulo 2^32: section 3.1 of RFC 7011. */
  ghost predicate Numbered(info: Info, msgs: seq<bytes>) {
    forall i :: 0 <= i < |msgs| ==> HasNumber(info, msgs, i)
  }

  ghost predicate HasNumber(info: Info, msgs: seq<bytes>, i: nat)
    requires i < |msgs|
  {
    && |msgs[i]| >= HDR_BYTES
    && Read16(msgs[i], 0) == VERSION
    && Read16(msgs[i], 2) == |msgs[i]|
    && Read32(msgs[i], 8) == |Collected(info, msgs[..i]).records| % 0x1_0000_0000
  }

  lemma NumberedMore(info: Info, msgs: seq<bytes>, msg: bytes)
    requires Numbered(info, msgs) && |msg| >= HDR_BYTES && Read16(msg, 0) == VERSION && Read16(msg, 2) == |msg|
    requires Read32(msg, 8) == |Collected(info, msgs).records| % 0x1_0000_0000
    ensures Numbered(info, msgs + [msg])
  {
    hide Collected, Read16, Read32;
    var all := msgs + [msg];
    forall i | 0 <= i < |all|
      ensures HasNumber(info, all, i)
    {
      assert all[..i] == msgs[..i];
      if i < |msgs| {
        assert HasNumber(info, msgs, i);
      } else {
        assert msgs[..i] == msgs;
      }
    }
  }
}
