/** The exporter of ipfix.c with one UDP collector, in the IPFIX version of the protocol. */
module IpfixExporter {
  import opened Bytes
  import opened IpfixWire
  import opened IpfixRoundTrip
  import opened IpfixBuffered
  import opened Options

  const BUFLEN := 1400

  /** Some fixed-length value is longer than its field. */
  predicate HasLongValue(fields: seq<Field>, vals: seq<bytes>) {
    exists i :: 0 <= i < |fields| && i < |vals| && fields[i].flength != VARLEN && |vals[i]| > fields[i].flength
  }

  /** What the code relies on: lengths are 16-bit and the values accepted fill their fields, numbers have a
      supported length, and the record is not as short as padding and fits a message. */
  ghost predicate Wellformed(info: Info, t: Template, vals: seq<bytes>) {
    && ValidTemplate(t) && (forall v :: v in vals ==> |v| < 0x1_0000)
    && (|vals| == |t.fields| && !HasLongValue(t.fields, vals) ==>
          Sendable(info, t, vals) && |RecordBytes(info, t.fields, vals)| + 4 <= BUFLEN)
  }

  lemma {:induction false} RecordStep(info: Info, fields: seq<Field>, vals: seq<bytes>, i: nat)
    requires i < |vals| == |fields|
    ensures RecordBytes(info, fields[..i + 1], vals[..i + 1])
      == RecordBytes(info, fields[..i], vals[..i]) + FieldBytes(info, fields[i], vals[i])
    decreases |vals|
  {
    hide FieldBytes;
    var last := FieldBytes(info, fields[i], vals[i]);
    if i == 0 {
      assert vals[..1][1..] == [] && fields[..1][1..] == [];
      assert last + [] == [] + last;
    } else {
      RecordStep(info, fields[1..], vals[1..], i - 1);
      assert vals[1..][..i] == vals[..i + 1][1..] && fields[1..][..i] == fields[..i + 1][1..];
      assert vals[1..][..i - 1] == vals[..i][1..] && fields[1..][..i - 1] == fields[..i][1..];
      Associative(FieldBytes(info, fields[0], vals[0]), RecordBytes(info, fields[..i][1..], vals[..i][1..]), last);
    }
  }

  lemma {:induction false} FieldSpecsStep(fields: seq<Field>, i: nat)
    requires i < |fields|
    ensures FieldSpecs(fields[..i + 1]) == FieldSpecs(fields[..i]) + FieldSpec(fields[i])
    decreases |fields|
  {
    hide FieldSpec;
    var last := FieldSpec(fields[i]);
    if i == 0 {
      assert fields[..1][1..] == [] && last + [] == [] + last;
    } else {
      FieldSpecsStep(fields[1..], i - 1);
      assert fields[1..][..i] == fields[..i + 1][1..] && fields[1..][..i - 1] == fields[..i][1..];
      Associative(FieldSpec(fields[0]), FieldSpecs(fields[..i][1..]), last);
    }
  }

  /** The size of a template set. */
  method TemplateSize(t: Template) returns (n: nat)
    ensures n == |SetBytes(TemplateSetId(t), TemplateBody(t))|
  {
    n := if t.nscope > 0 then 10 else 8;
    var i := 0;
    while i < |t.fields|
      invariant i <= |t.fields|
      invariant n == (if t.nscope > 0 then 10 else 8) + |FieldSpecs(t.fields[..i])|
    {
      FieldSpecsStep(t.fields, i);
      n := n + 4;
      if t.fields[i].eno != NOENO {
        n := n + 4;
      }
      i := i + 1;
    }
    assert t.fields[..i] == t.fields;
  }

  /** The bytes of a record, or None when a value is longer than its field. */
  method RecordSize(info: Info, fields: seq<Field>, vals: seq<bytes>) returns (n: Option<nat>)
    requires |vals| == |fields|
    ensures n == if HasLongValue(fields, vals) then None else Some(|RecordBytes(info, fields, vals)|)
  {
    hide RecordBytes, FieldBytes;
    var size, i := 0, 0;
    NoRecord(info);
    while i < |fields|
      invariant i <= |fields|
      invariant forall j :: 0 <= j < i ==> fields[j].flength == VARLEN || |vals[j]| <= fields[j].flength
      invariant size == |RecordBytes(info, fields[..i], vals[..i])|
    {
      RecordStep(info, fields, vals, i);
      FieldLength(info, fields[i], vals[i]);
      if fields[i].flength == VARLEN {
        size := size + if |vals[i]| > 254 then 3 else 1;
      } else if |vals[i]| > fields[i].flength {
        return None;
      }
      size := size + |vals[i]|;
      i := i + 1;
    }
    assert fields[..i] == fields && vals[..i] == vals;
    return Some(size);
  }

  lemma NoRecord(info: Info)
    ensures RecordBytes(info, [], []) == []
  {
  }

  lemma FieldLength(info: Info, f: Field, v: bytes)
    ensures |FieldBytes(info, f, v)| == (if f.flength != VARLEN then 0 else if |v| > 254 then 3 else 1) + |v|
  {
  }

  /** Where a record of `n` bytes ends in the buffer: behind what is there, and a set header if it starts a set; or, when
      that was found not to fit and the buffer has been flushed, behind a set header at the start. Whether it fits is
      found out without the header if the set of its template is open. */
  function RecordEnd(offset: nat, isOpen: bool, n: nat): nat {
    var len := if isOpen then n else n + 4;
    if offset + len > BUFLEN then 4 + n else offset + len
  }

  /** A record is written past the buffer exactly if it has more than 1396 bytes, whatever is buffered before it. */
  lemma RecordOverrunsIff(offset: nat, isOpen: bool, n: nat)
    requires offset <= BUFLEN && (isOpen ==> offset >= 4)
    ensures RecordEnd(offset, isOpen, n) > BUFLEN <==> n > 1396
  {
  }

  // ---------------------------------------------------------------- accounts

  /** The records that the collector has, and then those in the buffer, are the records exported. The sequence
      number is their count, modulo 2^32. */
  ghost predicate Accounts(info: Info, sent: seq<bytes>, sets: seq<Content>, known: Table, exported: seq<Datum>,
                           nrecords: nat, seqno: nat) {
    var p := Collected(info, sent);
    && p.end == Fine
    && Good(info, p.table, sets, known)
    && exported == p.records + AllData(sets)
    && nrecords == |AllData(sets)|
    && seqno == |exported| % 0x1_0000_0000
    && Numbered(info, sent)
  }

  lemma AccountsStart(info: Info)
    ensures Accounts(info, [], [], map[], [], 0, 0)
  {
    GoodStart(info, map[]);
  }

  lemma NumberSent(exported: nat, buffered: nat)
    requires buffered <= exported
    ensures (exported % 0x1_0000_0000 - buffered) % 0x1_0000_0000 == (exported - buffered) % 0x1_0000_0000
  {
  }

  /** After a message with everything that is buffered, the collector has everything that was exported. */
  lemma AccountsSend(info: Info, sent: seq<bytes>, sets: seq<Content>, known: Table, exported: seq<Datum>,
                     nrecords: nat, seqno: nat, now: nat, sourceid: nat)
    requires Accounts(info, sent, sets, known, exported, nrecords, seqno)
    requires now < 0x1_0000_0000 && sourceid < 0x1_0000_0000 && |Wire(info, sets)| <= BUFLEN
    ensures var msg := Header(|Wire(info, sets)| + HDR_BYTES, now, (seqno - nrecords) % 0x1_0000_0000, sourceid)
                       + Wire(info, sets);
      && Accounts(info, sent + [msg], [], known, exported, 0, seqno)
      && Collected(info, sent + [msg]).records == exported
  {
    hide Header, Wire, Good, ReadMessage, Collected, Numbered, TableAfterAll, AllData, Read16, Read32;
    var p := Collected(info, sent);
    var body, number := Wire(info, sets), (seqno - nrecords) % 0x1_0000_0000;
    var hdr := Header(|body| + HDR_BYTES, now, number, sourceid);
    HeaderBack(|body| + HDR_BYTES, now, number, sourceid, body);
    GoodReads(info, p.table, sets, known);
    ReadMessageBack(info, p.table, sets, hdr);
    CollectedMore(info, sent, hdr + body, Parsed(known, AllData(sets), Fine));
    NumberSent(|exported|, nrecords);
    NumberedMore(info, sent, hdr + body);
    GoodStart(info, known);
    NoData();
    assert exported + [] == exported;
  }

  /** The header of a message: version 10, the message's length, the time of export and the observation domain. */
  ghost predicate Stamped(msg: bytes, now: nat, sourceid: nat) {
    && |msg| >= 16 && Read16(msg, 0) == 10 && Read16(msg, 2) == |msg|
    && Read32(msg, 4) == now && Read32(msg, 12) == sourceid
  }

  lemma MessageIsStamped(body: bytes, now: nat, seqno: nat, sourceid: nat)
    requires |body| <= BUFLEN && now < 0x1_0000_0000 && seqno < 0x1_0000_0000 && sourceid < 0x1_0000_0000
    ensures Stamped(Header(|body| + HDR_BYTES, now, seqno, sourceid) + body, now, sourceid)
  {
    hide Header, Read16, Read32;
    HeaderBack(|body| + HDR_BYTES, now, seqno, sourceid, body);
  }

  /** Messages are added, all with that time and domain. */
  ghost predicate NewStamped(before: seq<bytes>, after: seq<bytes>, now: nat, sourceid: nat) {
    before <= after && forall i :: |before| <= i < |after| ==> Stamped(after[i], now, sourceid)
  }

  lemma OneStamped(before: seq<bytes>, msg: bytes, now: nat, sourceid: nat)
    requires Stamped(msg, now, sourceid)
    ensures NewStamped(before, before + [msg], now, sourceid)
  {
    hide Stamped;
  }

  lemma StampedThen(a: seq<bytes>, b: seq<bytes>, c: seq<bytes>, now: nat, sourceid: nat)
    requires NewStamped(a, b, now, sourceid) && NewStamped(b, c, now, sourceid)
    ensures NewStamped(a, c, now, sourceid)
  {
    hide Stamped;
  }

  lemma NoneStamped(a: seq<bytes>, now: nat, sourceid: nat)
    ensures NewStamped(a, a, now, sourceid)
  {
  }

  lemma NoData()
    ensures AllData([]) == []
  {
  }

  lemma AccountsFront(info: Info, sent: seq<bytes>, sets: seq<Content>, known: Table, exported: seq<Datum>,
                      nrecords: nat, seqno: nat, t: Template)
    requires Accounts(info, sent, sets, known, exported, nrecords, seqno)
    requires ValidTemplate(t) && |TemplateBody(t)| + 4 < 0x1_0000 && (t.tid in known ==> known[t.tid] == t)
    ensures Accounts(info, sent, [TemplateOf(t)] + sets, known[t.tid := t], exported, nrecords, seqno)
  {
    hide Good, Collected, Numbered, AllData;
    GoodFront(info, Collected(info, sent).table, sets, known, t);
  }

  lemma AccountsNewSet(info: Info, sent: seq<bytes>, sets: seq<Content>, known: Table, exported: seq<Datum>,
                       nrecords: nat, seqno: nat, t: Template, r: seq<bytes>)
    requires Accounts(info, sent, sets, known, exported, nrecords, seqno)
    requires t.tid in known && known[t.tid] == t && ValidTemplate(t)
    requires Sendable(info, t, r) && |RecordBytes(info, t.fields, r)| + 4 < 0x1_0000
    ensures Accounts(info, sent, sets + [RecordsOf(t, [r])], known, exported + [Datum(t.tid, r)], nrecords + 1,
                     (seqno + 1) % 0x1_0000_0000)
    ensures ContentBody(info, RecordsOf(t, [r])) == RecordBytes(info, t.fields, r)
  {
    hide Good, Collected, Numbered, AllData, Sendable, RecordBytes;
    GoodNewSet(info, Collected(info, sent).table, sets, known, t, r);
  }

  lemma AccountsMore(info: Info, sent: seq<bytes>, sets: seq<Content>, known: Table, exported: seq<Datum>,
                     nrecords: nat, seqno: nat, t: Template, records: seq<seq<bytes>>, r: seq<bytes>)
    requires Accounts(info, sent, sets + [RecordsOf(t, records)], known, exported, nrecords, seqno)
    requires Sendable(info, t, r)
    requires |RecordsBytes(info, t, records)| + |RecordBytes(info, t.fields, r)| + 4 < 0x1_0000
    ensures Accounts(info, sent, sets + [RecordsOf(t, records + [r])], known, exported + [Datum(t.tid, r)],
                     nrecords + 1, (seqno + 1) % 0x1_0000_0000)
    ensures RecordsBytes(info, t, records + [r]) == RecordsBytes(info, t, records) + RecordBytes(info, t.fields, r)
  {
    hide Good, Collected, Numbered, AllData, Sendable, RecordBytes, RecordsBytes;
    GoodMore(info, Collected(info, sent).table, sets, known, t, records, r);
  }

  /** The template of the last set is the one registered under its id. */
  lemma LastIsRegistered(info: Info, sent: seq<bytes>, sets: seq<Content>, known: Table, exported: seq<Datum>,
                         nrecords: nat, seqno: nat)
    requires Accounts(info, sent, sets, known, exported, nrecords, seqno) && sets != []
    ensures var t := sets[|sets| - 1].t; t.tid in known && known[t.tid] == t
  {
    hide Collected, Numbered, AllData, AllFitting, Ready, TableAfterAll;
    assert sets[|sets| - 1] in sets;
  }

  /** A set is started for a record. The length in its header is not used until it is written again. */
  lemma StartSet(info: Info, sent: seq<bytes>, sets: seq<Content>, known: Table, exported: seq<Datum>, nrecords: nat,
                 seqno: nat, buf: bytes, head: bytes, t: Template, vals: seq<bytes>)
    requires Accounts(info, sent, sets, known, exported, nrecords, seqno) && buf == Wire(info, sets) && |head| == 4
    requires t.tid in known && known[t.tid] == t && ValidTemplate(t)
    requires Sendable(info, t, vals) && |RecordBytes(info, t.fields, vals)| + 4 <= BUFLEN
    ensures var rec, after := RecordBytes(info, t.fields, vals), sets + [RecordsOf(t, [vals])];
      && Accounts(info, sent, after, known, exported + [Datum(t.tid, vals)], nrecords + 1, (seqno + 1) % 0x1_0000_0000)
      && Layout(info, buf + (head + rec), after, Open(t.tid, |buf|, 4 + |rec|))
  {
    hide Accounts, Sendable, RecordBytes, Wire, ContentBody, IsOpen;
    AccountsNewSet(info, sent, sets, known, exported, nrecords, seqno, t, vals);
    LayoutNewSet(info, buf, head, RecordBytes(info, t.fields, vals), sets, RecordsOf(t, [vals]));
  }

  /** The record joins the open set. */
  lemma ExtendSet(info: Info, sent: seq<bytes>, sets: seq<Content>, known: Table, exported: seq<Datum>, nrecords: nat,
                  seqno: nat, buf: bytes, o: Open, t: Template, vals: seq<bytes>)
    requires Accounts(info, sent, sets, known, exported, nrecords, seqno)
    requires o.tid != 0 && IsOpen(info, buf, sets, o) && o.tid == t.tid && t.tid in known && known[t.tid] == t
    requires Sendable(info, t, vals) && |buf| + |RecordBytes(info, t.fields, vals)| <= BUFLEN
    ensures var rec := RecordBytes(info, t.fields, vals);
      var after := sets[..|sets| - 1] + [RecordsOf(t, sets[|sets| - 1].records + [vals])];
      && Accounts(info, sent, after, known, exported + [Datum(t.tid, vals)], nrecords + 1, (seqno + 1) % 0x1_0000_0000)
      && Layout(info, buf + rec, after, o.(size := o.size + |rec|))
  {
    hide Accounts, Sendable, RecordBytes, RecordsBytes, Wire;
    LastIsRegistered(info, sent, sets, known, exported, nrecords, seqno);
    var init, records := sets[..|sets| - 1], sets[|sets| - 1].records;
    var c, d := RecordsOf(t, records), RecordsOf(t, records + [vals]);
    assert sets == init + [c];
    AccountsMore(info, sent, init, known, exported, nrecords, seqno, t, records, vals);
    hide IsOpen;
    LayoutMore(info, buf, RecordBytes(info, t.fields, vals), init, c, d, o);
  }

  lemma TemplateIdIsNotZero(t: Template)
    requires ValidTemplate(t)
    ensures t.tid > 0
  {
  }

  // ---------------------------------------------------------------- pieces written one after the other

  lemma FieldSpecsNothing()
    ensures FieldSpecs([]) == []
  {
  }

  lemma HeaderInside(s: bytes, header: nat, n: nat)
    requires header + 4 <= n <= |s|
    ensures s[..n][..header] == s[..header] && s[..n][header + 4..] == s[header + 4..n]
  {
  }

  lemma SetSize(t: Template)
    ensures |SetBytes(TemplateSetId(t), TemplateBody(t))| == 4 + |TemplateBody(t)|
  {
  }

  lemma SetBytesLength(t: Template)
    ensures var s := SetBytes(TemplateSetId(t), TemplateBody(t));
      && |s| == 4 + |TemplateBody(t)| == 4 + |TemplateHead(t)| + |FieldSpecs(t.fields)|
      && s == U16(TemplateSetId(t)) + (U16(|s|) + (TemplateHead(t) + FieldSpecs(t.fields)))
  {
  }

  lemma {:induction false} FieldSpecsGrow(fields: seq<Field>, i: nat)
    requires i <= |fields|
    ensures |FieldSpecs(fields[..i])| <= |FieldSpecs(fields)|
    decreases |fields| - i
  {
    if i < |fields| {
      FieldSpecsStep(fields, i);
      FieldSpecsGrow(fields, i + 1);
    } else {
      assert fields[..i] == fields;
    }
  }

  lemma {:induction false} RecordGrows(info: Info, fields: seq<Field>, vals: seq<bytes>, i: nat)
    requires i <= |vals| == |fields|
    ensures |RecordBytes(info, fields[..i], vals[..i])| <= |RecordBytes(info, fields, vals)|
    decreases |vals| - i
  {
    if i < |vals| {
      RecordStep(info, fields, vals, i);
      RecordGrows(info, fields, vals, i + 1);
    } else {
      assert fields[..i] == fields && vals[..i] == vals;
    }
  }

  lemma HeadWritten(t: Template, written: bytes, id: bytes, len: bytes)
    requires written == (if t.nscope > 0 then [] + id + len + U16(t.tid) + U16(|t.fields|) + U16(t.nscope)
                         else [] + id + len + U16(t.tid) + U16(|t.fields|))
    ensures written == id + (len + (TemplateHead(t) + []))
  {
    hide U16;
    var a, b, c := U16(t.tid), U16(|t.fields|), U16(t.nscope);
    assert TemplateHead(t) + [] == TemplateHead(t) && [] + id == id;
    Associative(id + len, a, b);
    Associative(id, len, a + b);
    Associative(id, len + (a + b), c);
    Associative(len, a + b, c);
    Associative(a, b, c);
  }

  lemma SpecWritten(id: bytes, len: bytes, head: bytes, a: bytes, b: bytes)
    ensures id + (len + (head + a)) + b == id + (len + (head + (a + b)))
  {
    Associative(id, len + (head + a), b);
    Associative(len, head + a, b);
    Associative(head, a, b);
  }

  // ---------------------------------------------------------------- the exporter

  class Exporter {
    const info: Info
    const sourceid: nat
    const buffer: array<byte>
    var nrecords: nat
    var offset: nat
    var seqno: nat
    var csTid: nat
    var csBytes: nat
    var csHeader: nat
    /** The templates with a time of transmission: sent, or waiting in the buffer. */
    var known: Table
    /** The messages that the collector has received. */
    var sent: seq<bytes>
    ghost var sets: seq<Content>
    ghost var exported: seq<Datum>

    ghost function OpenSet(): Open
      reads this
    {
      Open(csTid, csHeader, csBytes)
    }

    ghost function Buffered(): bytes
      reads this, buffer
      requires offset <= buffer.Length
    {
      buffer[..offset]
    }

    ghost predicate Accounted()
      reads this
    {
      Accounts(info, sent, sets, known, exported, nrecords, seqno)
    }

    ghost predicate Valid()
      reads this, buffer
    {
      && sourceid < 0x1_0000_0000
      && buffer.Length == BUFLEN && offset <= BUFLEN
      && Layout(info, Buffered(), sets, OpenSet())
      && Accounted()
    }

    constructor (info: Info, sourceid: nat)
      requires sourceid < 0x1_0000_0000
      ensures Valid() && fresh(buffer)
      ensures sent == [] && exported == [] && offset == 0 && known == map[]
      ensures this.info == info && this.sourceid == sourceid
    {
      this.info, this.sourceid := info, sourceid;
      buffer := new byte[BUFLEN];
      nrecords, offset, seqno, csTid, csBytes, csHeader := 0, 0, 0, 0, 0, 0;
      known, sent, sets, exported := map[], [], [], [];
      new;
      AccountsStart(info);
    }

    /** Writes bytes at a position of the buffer. */
    method Put(at: nat, s: bytes) returns (next: nat)
      requires at + |s| <= buffer.Length
      modifies buffer
      ensures next == at + |s|
      ensures buffer[..next] == old(buffer[..at]) + s
      ensures forall i :: next <= i < buffer.Length ==> buffer[i] == old(buffer[i])
    {
      next := at + |s|;
      forall i | 0 <= i < |s| {
        buffer[at + i] := s[i];
      }
      assert buffer[..at] == old(buffer[..at]) && buffer[at..next] == s;
      assert buffer[..next] == buffer[..at] + buffer[at..next];
    }

    method PutHeader(at: nat, tid: nat, size: nat)
      requires at + 4 <= offset <= buffer.Length
      modifies buffer
      ensures Buffered() == old(buffer[..at]) + (U16(tid) + (U16(size) + old(buffer[at + 4..offset])))
    {
      hide U16;
      ghost var front, tail := buffer[..at], buffer[at + 4..offset];
      var next := Put(at, U16(tid));
      next := Put(next, U16(size));
      assert Buffered() == buffer[..next] + tail;
      Associative(front, U16(tid), U16(size));
      Associative(front, U16(tid) + U16(size), tail);
      Associative(U16(tid), U16(size), tail);
    }

    /** Writes the id and the length of the open set at its start. */
    method FinishSet()
      requires Valid()
      modifies buffer, `csTid, `csBytes, `csHeader
      ensures Valid() && csTid == 0
    {
      hide Accounts, IsOpen, Layout, Wire, U16;
      if csTid == 0 {
        return;
      }
      OpenBounds(info, Buffered(), sets, OpenSet());
      ghost var was, o := Buffered(), OpenSet();
      HeaderInside(buffer[..], csHeader, offset);
      PutHeader(csHeader, csTid, csBytes);
      LayoutFinished(info, was, Buffered(), sets, o);
      csBytes, csHeader, csTid := 0, 0, 0;
    }

    /** Sends what is buffered in one message. When that fails, it stays in the buffer. */
    method Flush(now: nat, up: bool) returns (ok: bool)
      requires Valid() && now < 0x1_0000_0000
      modifies this, buffer
      ensures Valid() && exported == old(exported) && known == old(known)
      ensures ok <==> old(offset) == 0 || up
      ensures ok ==> offset == 0 && csTid == 0 && Collected(info, sent).records == exported
      ensures !ok || old(offset) == 0 ==> sent == old(sent) && offset == old(offset)
      ensures ok && old(offset) > 0 ==> |sent| == |old(sent)| + 1 && old(sent) <= sent
      ensures NewStamped(old(sent), sent, now, sourceid)
    {
      hide Accounts, IsOpen, Wire, Collected, Stamped, NewStamped;
      NoneStamped(sent, now, sourceid);
      if offset == 0 {
        NothingBuffered();
        return true;
      }
      FinishSet();
      ok := up;
      if ok {
        AccountsSend(info, sent, sets, known, exported, nrecords, seqno, now, sourceid);
        var number := (seqno - nrecords) % 0x1_0000_0000;
        MessageIsStamped(buffer[..offset], now, number, sourceid);
        OneStamped(sent, Header(offset + HDR_BYTES, now, number, sourceid) + buffer[..offset], now, sourceid);
        sent := sent + [Header(offset + HDR_BYTES, now, number, sourceid) + buffer[..offset]];
        offset, nrecords := 0, 0;
        sets := [];
        EmptyLayout(info, OpenSet());
      }
    }

    lemma NothingBuffered()
      requires Valid() && offset == 0
      ensures csTid == 0 && Collected(info, sent).records == exported
    {
      hide Collected, Good, Numbered, ContentBody;
      EmptyWire(info, sets);
    }

    /** Puts a template set before what is buffered, sending that first when both do not fit. */
    method WriteTemplate(t: Template, now: nat, up: bool) returns (ok: bool)
      requires Valid() && now < 0x1_0000_0000 && ValidTemplate(t)
      requires t.tid in known ==> known[t.tid] == t
      modifies this, buffer
      ensures Valid() && exported == old(exported)
      ensures known == if ok then old(known)[t.tid := t] else old(known)
      ensures up && |TemplateBody(t)| + 4 <= BUFLEN ==> ok
      ensures old(sent) <= sent && |sent| <= |old(sent)| + 1
      ensures NewStamped(old(sent), sent, now, sourceid)
    {
      hide Accounts, Layout, ValidTemplate, TemplateBody, SetBytes, Collected, NewStamped;
      SetSize(t);
      NoneStamped(sent, now, sourceid);
      var tsize := TemplateSize(t);
      if tsize + offset > BUFLEN {
        ok := Flush(now, up);
        if !ok {
          return;
        }
        if tsize + offset > BUFLEN {
          return false;
        }
      }
      InsertTemplate(t, tsize);
      return true;
    }

    /** A template set before what is buffered. There is room. */
    method InsertTemplate(t: Template, tsize: nat)
      requires Valid() && ValidTemplate(t) && (t.tid in known ==> known[t.tid] == t)
      requires tsize == |SetBytes(TemplateSetId(t), TemplateBody(t))| == 4 + |TemplateBody(t)|
      requires offset + tsize <= BUFLEN
      modifies this, buffer
      ensures Valid() && exported == old(exported) && sent == old(sent)
      ensures known == old(known)[t.tid := t]
    {
      hide Accounts, Layout, ValidTemplate, TemplateBody, SetBytes, Collected;
      ghost var was, o := Buffered(), OpenSet();
      PutInFront(t, tsize);
      TemplateFits(info, t);
      LayoutFront(info, was, buffer[..tsize], sets, o, TemplateOf(t));
      AccountsFront(info, sent, sets, known, exported, nrecords, seqno, t);
      sets := [TemplateOf(t)] + sets;
      known := known[t.tid := t];
    }

    /** Moves what is buffered, with the place of the open set, and writes a template set before it. */
    method PutInFront(t: Template, tsize: nat)
      requires buffer.Length == BUFLEN && offset + tsize <= BUFLEN
      requires tsize == |SetBytes(TemplateSetId(t), TemplateBody(t))| == 4 + |TemplateBody(t)|
      modifies buffer, `offset, `csHeader
      ensures offset == old(offset) + tsize
      ensures buffer[..tsize] == SetBytes(TemplateSetId(t), TemplateBody(t))
      ensures Buffered() == buffer[..tsize] + old(Buffered())
      ensures csHeader == old(csHeader) + if csTid > 0 then tsize else 0
    {
      hide SetBytes, TemplateBody;
      ghost var was := Buffered();
      forall i | 0 <= i < offset {
        buffer[tsize + i] := buffer[i];
      }
      if csTid > 0 {
        csHeader := csHeader + tsize;
      }
      ghost var rest := buffer[tsize..];
      assert rest[..offset] == was;
      PutTemplate(t, tsize);
      assert buffer[tsize..] == rest;
      assert buffer[tsize..tsize + offset] == buffer[tsize..][..offset];
      offset := offset + tsize;
      assert buffer[..offset] == buffer[..tsize] + buffer[tsize..offset];
    }

    /** Writes a template set at the start of the buffer. */
    method PutTemplate(t: Template, tsize: nat)
      requires buffer.Length == BUFLEN && tsize <= BUFLEN
      requires tsize == |SetBytes(TemplateSetId(t), TemplateBody(t))|
      modifies buffer
      ensures buffer[..tsize] == SetBytes(TemplateSetId(t), TemplateBody(t))
      ensures buffer[tsize..] == old(buffer[tsize..])
    {
      hide FieldSpecs, FieldSpec, U16;
      SetBytesLength(t);
      FieldSpecsNothing();
      ghost var id, len, head := U16(TemplateSetId(t)), U16(tsize), TemplateHead(t);
      assert buffer[..0] == [];
      var pos := Put(0, U16(if t.nscope > 0 then SETID_OPTTEMPLATE else SETID_TEMPLATE));
      pos := Put(pos, U16(tsize));
      pos := Put(pos, U16(t.tid));
      pos := Put(pos, U16(|t.fields|));
      if t.nscope > 0 {
        pos := Put(pos, U16(t.nscope));
      }
      HeadWritten(t, buffer[..pos], id, len);
      var i := 0;
      while i < |t.fields|
        invariant i <= |t.fields| && pos <= tsize
        invariant pos + |FieldSpecs(t.fields)| - |FieldSpecs(t.fields[..i])| == tsize
        invariant buffer[..pos] == id + (len + (head + FieldSpecs(t.fields[..i])))
        invariant forall k :: tsize <= k < BUFLEN ==> buffer[k] == old(buffer[k])
      {
        FieldSpecsStep(t.fields, i);
        FieldSpecsGrow(t.fields, i + 1);
        pos := PutField(t.fields[i], pos);
        SpecWritten(id, len, head, FieldSpecs(t.fields[..i]), FieldSpec(t.fields[i]));
        i := i + 1;
      }
      assert t.fields[..i] == t.fields;
    }

    method PutField(f: Field, pos: nat) returns (next: nat)
      requires pos + |FieldSpec(f)| <= buffer.Length
      modifies buffer
      ensures next == pos + |FieldSpec(f)|
      ensures buffer[..next] == old(buffer[..pos]) + FieldSpec(f)
      ensures forall i :: next <= i < buffer.Length ==> buffer[i] == old(buffer[i])
    {
      hide U16, U32;
      ghost var was := buffer[..pos];
      if f.eno == NOENO {
        next := Put(pos, U16(f.ftype));
        next := Put(next, U16(f.flength));
        Associative(was, U16(f.ftype), U16(f.flength));
      } else {
        next := Put(pos, U16(f.ftype + VENDOR_BIT));
        next := Put(next, U16(f.flength));
        next := Put(next, U32(f.eno));
        Associative(was, U16(f.ftype + VENDOR_BIT), U16(f.flength));
        Associative(was, U16(f.ftype + VENDOR_BIT) + U16(f.flength), U32(f.eno));
        Associative(U16(f.ftype + VENDOR_BIT), U16(f.flength), U32(f.eno));
      }
    }

    /** Writes the fields of a record, variable-length ones behind their length in one or three bytes. */
    method PutRecord(t: Template, vals: seq<bytes>, pos: nat) returns (next: nat)
      requires |vals| == |t.fields| && pos + |RecordBytes(info, t.fields, vals)| <= buffer.Length
      modifies buffer
      ensures next == pos + |RecordBytes(info, t.fields, vals)|
      ensures buffer[..next] == old(buffer[..pos]) + RecordBytes(info, t.fields, vals)
    {
      hide FieldBytes;
      next := pos;
      ghost var was := buffer[..pos];
      var i := 0;
      assert vals[..0] == [];
      while i < |t.fields|
        invariant i <= |t.fields|
        invariant next == pos + |RecordBytes(info, t.fields[..i], vals[..i])| <= buffer.Length
        invariant buffer[..next] == was + RecordBytes(info, t.fields[..i], vals[..i])
      {
        RecordStep(info, t.fields, vals, i);
        RecordGrows(info, t.fields, vals, i + 1);
        Associative(was, RecordBytes(info, t.fields[..i], vals[..i]), FieldBytes(info, t.fields[i], vals[i]));
        next := PutValue(t.fields[i], vals[i], next);
        i := i + 1;
      }
      assert t.fields[..i] == t.fields && vals[..i] == vals;
    }

    method PutValue(f: Field, v: bytes, pos: nat) returns (next: nat)
      requires pos + |FieldBytes(info, f, v)| <= buffer.Length
      modifies buffer
      ensures next == pos + |FieldBytes(info, f, v)|
      ensures buffer[..next] == old(buffer[..pos]) + FieldBytes(info, f, v)
    {
      hide U16, Coded;
      ghost var was := buffer[..pos];
      next := pos;
      if f.flength == VARLEN {
        if |v| > 254 {
          next := Put(next, [0xff]);
          next := Put(next, U16(|v|));
          Associative(was, [0xff], U16(|v|));
        } else {
          next := Put(next, [|v|]);
        }
      } else {
        assert was + [] == was;
      }
      Associative(was, LengthPrefix(f, |v|), Coded(info(f.eno, f.ftype), v));
      next := Put(next, Coded(info(f.eno, f.ftype), v));
    }

    /** Writes a record behind what is buffered, for a set that has just been started or is open. */
    method PutBehind(t: Template, vals: seq<bytes>, head: bytes)
      requires |vals| == |t.fields| && offset + |head| + |RecordBytes(info, t.fields, vals)| <= buffer.Length
      modifies buffer, `offset, `csBytes
      ensures offset == old(offset) + |head| + |RecordBytes(info, t.fields, vals)|
      ensures Buffered() == old(Buffered()) + (head + RecordBytes(info, t.fields, vals))
      ensures csBytes == old(csBytes) + (offset - old(offset))
    {
      hide RecordBytes;
      ghost var was := Buffered();
      var pos := Put(offset, head);
      pos := PutRecord(t, vals, pos);
      Associative(was, head, RecordBytes(info, t.fields, vals));
      csBytes := csBytes + (pos - offset);
      offset := pos;
    }

    /** Adds a record to the open set of its template, or starts a set for it. There is room. */
    method AddRecord(t: Template, vals: seq<bytes>, newset: bool, datasetlen: nat)
      requires Valid() && Wellformed(info, t, vals) && |vals| == |t.fields| && !HasLongValue(t.fields, vals)
      requires t.tid in known && known[t.tid] == t
      requires newset <==> csTid != t.tid
      requires newset ==> csTid == 0
      requires offset + |RecordBytes(info, t.fields, vals)| + (if newset then 4 else 0) <= BUFLEN
      modifies this, buffer
      ensures Valid() && exported == old(exported) + [Datum(t.tid, vals)]
      ensures known == old(known) && sent == old(sent)
    {
      hide Accounts, IsOpen, Wire, ValidTemplate, Sendable, RecordBytes, ContentBody, Layout, HasLongValue, U16;
      TemplateIdIsNotZero(t);
      ghost var was, o, rec := Buffered(), OpenSet(), RecordBytes(info, t.fields, vals);
      if newset {
        var head := U16(t.tid) + U16(datasetlen);
        ClosedLayout(info, was, sets, o);
        StartSet(info, sent, sets, known, exported, nrecords, seqno, was, head, t, vals);
        csBytes, csHeader, csTid := 0, offset, t.tid;
        PutBehind(t, vals, head);
        sets := sets + [RecordsOf(t, [vals])];
      } else {
        OpenBounds(info, was, sets, o);
        ExtendSet(info, sent, sets, known, exported, nrecords, seqno, was, o, t, vals);
        PutBehind(t, vals, []);
        assert [] + rec == rec;
        sets := sets[..|sets| - 1] + [RecordsOf(t, sets[|sets| - 1].records + [vals])];
      }
      nrecords, seqno := nrecords + 1, (seqno + 1) % 0x1_0000_0000;
      exported := exported + [Datum(t.tid, vals)];
    }

    /** Exports a record. It is refused when it does not match its template, and not taken when a message that
        would have to be sent cannot be. */
    method Export(t: Template, vals: seq<bytes>, stale: bool, now: nat, up1: bool, up2: bool) returns (ok: bool)
      requires Valid() && now < 0x1_0000_0000 && Wellformed(info, t, vals)
      requires t.tid in known ==> known[t.tid] == t
      modifies this, buffer
      ensures Valid()
      ensures exported == if ok then old(exported) + [Datum(t.tid, vals)] else old(exported)
      ensures |vals| != |t.fields| || HasLongValue(t.fields, vals) ==> !ok
      ensures |vals| == |t.fields| && !HasLongValue(t.fields, vals) && |TemplateBody(t)| + 4 <= BUFLEN && up1 && up2 ==> ok
      ensures ok ==> t.tid in known && known[t.tid] == t
      ensures known == old(known) || known == old(known)[t.tid := t]
      ensures old(sent) <= sent
      ensures NewStamped(old(sent), sent, now, sourceid)
    {
      hide Accounts, Layout, IsOpen, Wire, Sendable, RecordBytes, TemplateBody, ValidTemplate, Collected, HasLongValue,
        NewStamped;
      TemplateIdIsNotZero(t);
      NoneStamped(sent, now, sourceid);
      if |vals| != |t.fields| {
        return false;
      }
      if t.tid !in known || stale {
        ok := WriteTemplate(t, now, up1);
        if !ok {
          return;
        }
      }
      var newset := t.tid != csTid;
      if newset {
        FinishSet();
      }
      var size := RecordSize(info, t.fields, vals);
      if size == None {
        return false;
      }
      var datasetlen := size.value + if newset then 4 else 0;
      if offset + datasetlen > BUFLEN {
        FinishSet();
        newset := true;
        ghost var before := sent;
        ok := Flush(now, up2);
        StampedThen(old(sent), before, sent, now, sourceid);
        if !ok {
          return;
        }
      }
      AddRecord(t, vals, newset, datasetlen);
      return true;
    }
  }

  // ---------------------------------------------------------------- whole runs

  datatype Op =
    | Record(t: Template, vals: seq<bytes>, stale: bool, now: nat, up1: bool, up2: bool)
    | Send(now: nat, up: bool)

  /** The records of a run that were taken, in order. */
  function Taken(ops: seq<Op>, results: seq<bool>): seq<Datum>
    requires |results| <= |ops|
  {
    if results == [] then [] else
      var n := |results| - 1;
      Taken(ops, results[..n]) +
      if results[n] && ops[n].Record? then [Datum(ops[n].t.tid, ops[n].vals)] else []
  }

  ghost predicate GoodOp(info: Info, op: Op) {
    op.now < 0x1_0000_0000 && (op.Record? ==> Wellformed(info, op.t, op.vals))
  }

  /** Different templates have different ids. */
  ghost predicate OneIdEach(ops: seq<Op>) {
    forall i, j :: 0 <= i < |ops| && 0 <= j < |ops| && ops[i].Record? && ops[j].Record? && ops[i].t.tid == ops[j].t.tid
      ==> ops[i].t == ops[j].t
  }

  ghost predicate KnownFrom(known: Table, ops: seq<Op>) {
    forall i, k :: 0 <= i < |ops| && ops[i].Record? && k == ops[i].t.tid && k in known ==> known[k] == ops[i].t
  }

  /** The values are as many as the fields, and none of fixed length is too long. */
  ghost predicate Matches(op: Op)
    requires op.Record?
  {
    |op.vals| == |op.t.fields| && !HasLongValue(op.t.fields, op.vals)
  }

  /** Nothing stands against it: the messages that it may have to send can be sent, and a record matches its template,
      of which a set fits a message. */
  ghost predicate MustSucceed(op: Op) {
    match op
    case Send(_, up) => up
    case Record(t, _, _, _, up1, up2) => Matches(op) && |TemplateBody(t)| + 4 <= BUFLEN && up1 && up2
  }

  ghost predicate MustFail(op: Op) {
    op.Record? && !Matches(op)
  }

  ghost predicate Answers(ops: seq<Op>, results: seq<bool>) {
    |results| <= |ops| && forall i :: 0 <= i < |results| ==>
      (MustSucceed(ops[i]) ==> results[i]) && (MustFail(ops[i]) ==> !results[i])
  }

  lemma AnswersMore(ops: seq<Op>, results: seq<bool>, ok: bool)
    requires Answers(ops, results) && |results| < |ops|
    requires var op := ops[|results|]; (MustSucceed(op) ==> ok) && (MustFail(op) ==> !ok)
    ensures Answers(ops, results + [ok])
  {
    hide MustSucceed, MustFail;
  }

  /** One operation of a run. */
  method Perform(e: Exporter, op: Op) returns (ok: bool)
    requires e.Valid() && GoodOp(e.info, op) && (op.Record? && op.t.tid in e.known ==> e.known[op.t.tid] == op.t)
    modifies e, e.buffer
    ensures e.Valid()
    ensures e.exported == old(e.exported) + if ok && op.Record? then [Datum(op.t.tid, op.vals)] else []
    ensures (MustSucceed(op) ==> ok) && (MustFail(op) ==> !ok)
    ensures e.known == old(e.known) || (op.Record? && e.known == old(e.known)[op.t.tid := op.t])
    ensures ok && op.Send? ==> Collected(e.info, e.sent).records == e.exported
    ensures NewStamped(old(e.sent), e.sent, op.now, e.sourceid)
  {
    hide Accounts, Layout, Wellformed, Collected, HasLongValue, TemplateBody, IsOpen, NewStamped;
    match op {
      case Record(t, vals, stale, now, up1, up2) =>
        ok := e.Export(t, vals, stale, now, up1, up2);
      case Send(now, up) =>
        ok := e.Flush(now, up);
    }
  }

  lemma TakenMore(ops: seq<Op>, results: seq<bool>, ok: bool)
    requires |results| < |ops|
    ensures var op := ops[|results|];
      Taken(ops, results + [ok]) == Taken(ops, results) + if ok && op.Record? then [Datum(op.t.tid, op.vals)] else []
  {
    assert (results + [ok])[..|results|] == results;
  }

  lemma KnownFromMore(known: Table, after: Table, ops: seq<Op>, i: nat)
    requires i < |ops| && OneIdEach(ops) && KnownFrom(known, ops)
    requires after == known || (ops[i].Record? && after == known[ops[i].t.tid := ops[i].t])
    ensures KnownFrom(after, ops)
  {
  }

  /** Each message has the domain of the exporter and the time of the operation that sent it; these are in order. */
  ghost predicate SentBy(ops: seq<Op>, n: nat, sent: seq<bytes>, senders: seq<nat>, sourceid: nat)
    requires n <= |ops|
  {
    && |senders| == |sent|
    && (forall i :: 0 <= i < |sent| ==> senders[i] < n && Stamped(sent[i], ops[senders[i]].now, sourceid))
    && (forall i, j :: 0 <= i < j < |sent| ==> senders[i] <= senders[j])
  }

  lemma SentByMore(ops: seq<Op>, n: nat, sent: seq<bytes>, senders: seq<nat>, sourceid: nat, after: seq<bytes>)
    requires n < |ops| && SentBy(ops, n, sent, senders, sourceid) && NewStamped(sent, after, ops[n].now, sourceid)
    ensures SentBy(ops, n + 1, after, senders + seq(|after| - |sent|, _ => n), sourceid)
  {
    hide Stamped;
  }

  /** For every run of exports and flushes on a fresh exporter, whichever sends fail: what a collector reads from the
      messages are the records that were taken, in order and with the same bytes, up to those still in the buffer;
      and after a flush that succeeds, all of them. Only a failing send, or a template too long, keeps a record that
      matches its template from being taken. */
  method Run(info: Info, sourceid: nat, ops: seq<Op>)
    returns (results: seq<bool>, sent: seq<bytes>, senders: seq<nat>)
    requires sourceid < 0x1_0000_0000 && OneIdEach(ops) && forall op :: op in ops ==> GoodOp(info, op)
    ensures |results| == |ops|
    ensures Answers(ops, results)
    ensures Collected(info, sent).end == Fine && Numbered(info, sent)
    ensures SentBy(ops, |ops|, sent, senders, sourceid)
    ensures Collected(info, sent).records <= Taken(ops, results)
    ensures ops != [] && ops[|ops| - 1].Send? && results[|ops| - 1] ==> Collected(info, sent).records == Taken(ops, results)
  {
    hide Accounts, Layout, GoodOp, Collected, MustSucceed, MustFail, Answers, Taken, KnownFrom, OneIdEach, IsOpen,
      SentBy, NewStamped;
    var e := new Exporter(info, sourceid);
    results, senders := [], [];
    NothingTaken(ops);
    var i := 0;
    while i < |ops|
      invariant i <= |ops| && |results| == i
      invariant e.Valid() && fresh(e) && fresh(e.buffer) && e.info == info && e.sourceid == sourceid
      invariant SentBy(ops, i, e.sent, senders, sourceid)
      invariant Answers(ops, results)
      invariant e.exported == Taken(ops, results) && KnownFrom(e.known, ops)
      invariant i > 0 && ops[i - 1].Send? && results[i - 1] ==> Collected(info, e.sent).records == Taken(ops, results)
    {
      assert ops[i] in ops;
      KnownHas(e.known, ops, i);
      ghost var known := e.known;
      var before := e.sent;
      var ok := Perform(e, ops[i]);
      SentByMore(ops, i, before, senders, sourceid, e.sent);
      NewOnes(before, e.sent, ops[i].now, sourceid);
      senders := senders + seq(|e.sent| - |before|, _ => i);
      KnownFromMore(known, e.known, ops, i);
      TakenMore(ops, results, ok);
      AnswersMore(ops, results, ok);
      results := results + [ok];
      i := i + 1;
    }
    sent := e.sent;
    CollectedIsTaken(info, sent, e.sets, e.known, e.exported, e.nrecords, e.seqno);
  }

  lemma NewOnes(before: seq<bytes>, after: seq<bytes>, now: nat, sourceid: nat)
    requires NewStamped(before, after, now, sourceid)
    ensures |before| <= |after|
  {
  }

  lemma NothingTaken(ops: seq<Op>)
    ensures Taken(ops, []) == [] && KnownFrom(map[], ops) && Answers(ops, [])
    ensures forall sourceid :: SentBy(ops, 0, [], [], sourceid)
  {
  }

  lemma KnownHas(known: Table, ops: seq<Op>, i: nat)
    requires i < |ops| && KnownFrom(known, ops)
    ensures ops[i].Record? && ops[i].t.tid in known ==> known[ops[i].t.tid] == ops[i].t
  {
  }

  lemma CollectedIsTaken(info: Info, sent: seq<bytes>, sets: seq<Content>, known: Table, exported: seq<Datum>,
                         nrecords: nat, seqno: nat)
    requires Accounts(info, sent, sets, known, exported, nrecords, seqno)
    ensures Collected(info, sent).end == Fine && Numbered(info, sent) && Collected(info, sent).records <= exported
  {
    hide Collected, Good, Numbered;
  }
}
