/** What the exporter's buffer holds, as a list of sets: how the list may change so that a collector that has read
    all messages sent before can read it. */
module IpfixBuffered {
  import opened Bytes
  import opened IpfixWire
  import opened IpfixRoundTrip

  // ---------------------------------------------------------------- lists of sets

  lemma {:induction false} WireAppend(info: Info, cs: seq<Content>, c: Content)
    ensures Wire(info, cs + [c]) == Wire(info, cs) + SetBytes(ContentId(c), ContentBody(info, c))
  {
    hide SetBytes, ContentBody, ContentId;
    var last := SetBytes(ContentId(c), ContentBody(info, c));
    if cs == [] {
      assert cs + [c] == [c] && [c][1..] == [] && last + [] == [] + last;
    } else {
      WireAppend(info, cs[1..], c);
      assert (cs + [c])[1..] == cs[1..] + [c];
      Associative(SetBytes(ContentId(cs[0]), ContentBody(info, cs[0])), Wire(info, cs[1..]), last);
    }
  }

  lemma {:induction false} AllDataAppend(cs: seq<Content>, c: Content)
    ensures AllData(cs + [c]) == AllData(cs) + DataOf(c)
  {
    hide DataOf;
    if cs == [] {
      assert cs + [c] == [c] && [c][1..] == [] && DataOf(c) + [] == [] + DataOf(c);
    } else {
      AllDataAppend(cs[1..], c);
      assert (cs + [c])[1..] == cs[1..] + [c];
    }
  }

  lemma {:induction false} DataAppend(tid: nat, records: seq<seq<bytes>>, r: seq<bytes>)
    ensures Data(tid, records + [r]) == Data(tid, records) + [Datum(tid, r)]
  {
    if records == [] {
      assert records + [r] == [r] && [r][1..] == [];
    } else {
      DataAppend(tid, records[1..], r);
      assert (records + [r])[1..] == records[1..] + [r];
    }
  }

  lemma {:induction false} ReadyAppend(m: Table, cs: seq<Content>, c: Content)
    ensures TableAfterAll(m, cs + [c]) == TableAfter(TableAfterAll(m, cs), c)
    ensures Ready(m, cs + [c]) <==> Ready(m, cs) && Known(TableAfterAll(m, cs), c)
    decreases |cs|
  {
    hide TableAfter, Known;
    if cs == [] {
      assert cs + [c] == [c] && [c][1..] == [];
    } else {
      ReadyAppend(TableAfter(m, cs[0]), cs[1..], c);
      assert (cs + [c])[1..] == cs[1..] + [c];
    }
  }

  ghost predicate Extends(m: Table, n: Table) {
    forall k :: k in m ==> k in n && n[k] == m[k]
  }

  lemma {:induction false} ReadyInMore(m: Table, n: Table, cs: seq<Content>)
    requires Ready(m, cs) && Extends(m, n)
    ensures Ready(n, cs)
    decreases |cs|
  {
    if cs != [] {
      ReadyInMore(TableAfter(m, cs[0]), TableAfter(n, cs[0]), cs[1..]);
    }
  }

  /** Templates have different ids: those in the list are as registered. */
  ghost predicate Registered(known: Table, cs: seq<Content>) {
    forall c :: c in cs ==> c.t.tid in known && known[c.t.tid] == c.t
  }

  lemma {:induction false} TemplateInFront(m: Table, t: Template, cs: seq<Content>)
    requires forall c :: c in cs && c.t.tid == t.tid ==> c.t == t
    ensures TableAfterAll(m[t.tid := t], cs) == TableAfterAll(m, cs)[t.tid := t]
    decreases |cs|
  {
    if cs != [] {
      assert cs[0] in cs;
      TemplateInFront(TableAfter(m, cs[0]), t, cs[1..]);
      assert TableAfter(m[t.tid := t], cs[0]) == TableAfter(m, cs[0])[t.tid := t];
    }
  }

  /** A collector with table `m` can read the list, and then knows exactly the templates sent so far. */
  ghost predicate Good(info: Info, m: Table, cs: seq<Content>, known: Table) {
    && AllFitting(info, cs)
    && Ready(m, cs)
    && TableAfterAll(m, cs) == known
    && Registered(known, cs)
    && Extends(m, known)
  }

  lemma GoodStart(info: Info, m: Table)
    ensures Good(info, m, [], m)
  {
  }

  lemma GoodReads(info: Info, m: Table, cs: seq<Content>, known: Table)
    requires Good(info, m, cs, known)
    ensures AllFitting(info, cs) && Ready(m, cs) && TableAfterAll(m, cs) == known
  {
  }

  lemma FrontIsReady(m: Table, cs: seq<Content>, t: Template)
    requires Ready(m, cs) && (t.tid in m ==> m[t.tid] == t)
    requires forall c :: c in cs && c.t.tid == t.tid ==> c.t == t
    ensures var more := [TemplateOf(t)] + cs;
      Ready(m, more) && TableAfterAll(m, more) == TableAfterAll(m, cs)[t.tid := t] && AllData(more) == AllData(cs)
  {
    var more := [TemplateOf(t)] + cs;
    assert more[0] == TemplateOf(t) && more[1..] == cs;
    ReadyInMore(m, m[t.tid := t], cs);
    TemplateInFront(m, t, cs);
    assert [] + AllData(cs) == AllData(cs);
  }

  lemma FrontWire(info: Info, cs: seq<Content>, c: Content)
    ensures Wire(info, [c] + cs) == SetBytes(ContentId(c), ContentBody(info, c)) + Wire(info, cs)
  {
    hide SetBytes, ContentBody;
    assert ([c] + cs)[0] == c && ([c] + cs)[1..] == cs;
  }

  /** A template may be put in front of what is buffered. */
  lemma GoodFront(info: Info, m: Table, cs: seq<Content>, known: Table, t: Template)
    requires Good(info, m, cs, known) && ValidTemplate(t) && |TemplateBody(t)| + 4 < 0x1_0000
    requires t.tid in known ==> known[t.tid] == t
    ensures Good(info, m, [TemplateOf(t)] + cs, known[t.tid := t])
    ensures AllData([TemplateOf(t)] + cs) == AllData(cs)
    ensures Wire(info, [TemplateOf(t)] + cs) == SetBytes(TemplateSetId(t), TemplateBody(t)) + Wire(info, cs)
  {
    hide SetBytes, TemplateBody, Ready, TableAfterAll, AllData, Wire;
    FrontIsReady(m, cs, t);
    FrontWire(info, cs, TemplateOf(t));
    TemplateFits(info, t);
  }

  lemma TemplateFits(info: Info, t: Template)
    requires ValidTemplate(t) && |TemplateBody(t)| + 4 < 0x1_0000
    ensures Fitting(info, TemplateOf(t)) && ContentBody(info, TemplateOf(t)) == TemplateBody(t)
    ensures ContentId(TemplateOf(t)) == TemplateSetId(t)
  {
  }

  /** A record of a template that has been sent may go into a new set. */
  lemma GoodNewSet(info: Info, m: Table, cs: seq<Content>, known: Table, t: Template, r: seq<bytes>)
    requires Good(info, m, cs, known) && t.tid in known && known[t.tid] == t && ValidTemplate(t)
    requires Sendable(info, t, r) && |RecordBytes(info, t.fields, r)| + 4 < 0x1_0000
    ensures Good(info, m, cs + [RecordsOf(t, [r])], known)
    ensures AllData(cs + [RecordsOf(t, [r])]) == AllData(cs) + [Datum(t.tid, r)]
    ensures ContentBody(info, RecordsOf(t, [r])) == RecordBytes(info, t.fields, r)
  {
    hide Sendable, RecordBytes, TableAfterAll, Ready;
    var c := RecordsOf(t, [r]);
    ReadyAppend(m, cs, c);
    AllDataAppend(cs, c);
    assert [r][1..] == [] && [r][0] == r;
    assert RecordsBytes(info, t, [r]) == RecordBytes(info, t.fields, r) + [] == RecordBytes(info, t.fields, r);
    assert Data(t.tid, [r]) == [Datum(t.tid, r)] + [];
    assert Fitting(info, c);
  }

  /** A record of the template of the last set may go into that set. */
  lemma GoodMore(info: Info, m: Table, cs: seq<Content>, known: Table, t: Template, records: seq<seq<bytes>>, r: seq<bytes>)
    requires Good(info, m, cs + [RecordsOf(t, records)], known)
    requires Sendable(info, t, r)
    requires |RecordsBytes(info, t, records)| + |RecordBytes(info, t.fields, r)| + 4 < 0x1_0000
    ensures Good(info, m, cs + [RecordsOf(t, records + [r])], known)
    ensures AllData(cs + [RecordsOf(t, records + [r])]) == AllData(cs + [RecordsOf(t, records)]) + [Datum(t.tid, r)]
    ensures RecordsBytes(info, t, records + [r]) == RecordsBytes(info, t, records) + RecordBytes(info, t.fields, r)
  {
    hide Sendable, RecordBytes, RecordsBytes, TableAfterAll, Ready, ValidTemplate, Data, AllData;
    var c, d := RecordsOf(t, records), RecordsOf(t, records + [r]);
    assert c in cs + [c] && Fitting(info, c);
    ReadyAppend(m, cs, c);
    ReadyAppend(m, cs, d);
    AllDataAppend(cs, c);
    AllDataAppend(cs, d);
    DataAppend(t.tid, records, r);
    RecordsBytesAppend(info, t, records, r);
    assert AllData(cs) + (Data(t.tid, records) + [Datum(t.tid, r)]) == AllData(cs) + Data(t.tid, records) + [Datum(t.tid, r)];
    assert Fitting(info, d);
    forall x | x in cs
      ensures Fitting(info, x) && x.t.tid in known && known[x.t.tid] == x.t
    {
      assert x in cs + [c];
    }
  }

  // ---------------------------------------------------------------- layout

  /** The set that is still open: the id and length at its start are not written yet. */
  datatype Open = Open(tid: nat, header: nat, size: nat)

  ghost predicate IsOpen(info: Info, buf: bytes, cs: seq<Content>, o: Open) {
    && cs != [] && cs[|cs| - 1].RecordsOf? && cs[|cs| - 1].t.tid == o.tid
    && o.size == 4 + |ContentBody(info, cs[|cs| - 1])| && o.header + o.size == |buf|
    && buf[..o.header] == Wire(info, cs[..|cs| - 1])
    && buf[o.header + 4..] == ContentBody(info, cs[|cs| - 1])
  }

  /** The buffer holds the sets, but for the start of an open one. */
  ghost predicate Layout(info: Info, buf: bytes, cs: seq<Content>, o: Open) {
    if o.tid == 0 then buf == Wire(info, cs) else IsOpen(info, buf, cs, o)
  }

  lemma LayoutFinished(info: Info, buf: bytes, after: bytes, cs: seq<Content>, o: Open)
    requires o.tid != 0 && IsOpen(info, buf, cs, o)
    requires after == buf[..o.header] + (U16(o.tid) + (U16(o.size) + buf[o.header + 4..]))
    ensures after == Wire(info, cs) && Layout(info, after, cs, Open(0, 0, 0))
  {
    hide Wire, ContentBody;
    var c := cs[|cs| - 1];
    WireAppend(info, cs[..|cs| - 1], c);
    assert cs[..|cs| - 1] + [c] == cs;
  }

  lemma LayoutFront(info: Info, buf: bytes, front: bytes, cs: seq<Content>, o: Open, c: Content)
    requires Layout(info, buf, cs, o) && front == SetBytes(ContentId(c), ContentBody(info, c))
    ensures Layout(info, front + buf, [c] + cs, if o.tid == 0 then o else o.(header := o.header + |front|))
  {
    hide ContentBody, SetBytes;
    var more := [c] + cs;
    assert more[0] == c && more[1..] == cs;
    if o.tid != 0 {
      assert more[|more| - 1] == cs[|cs| - 1];
      var init := more[..|more| - 1];
      assert init[0] == c && init[1..] == cs[..|cs| - 1];
      assert (front + buf)[..o.header + |front|] == front + buf[..o.header];
      assert (front + buf)[o.header + |front| + 4..] == buf[o.header + 4..];
    }
  }

  lemma LayoutNewSet(info: Info, buf: bytes, head: bytes, body: bytes, cs: seq<Content>, c: Content)
    requires buf == Wire(info, cs) && |head| == 4 && c.RecordsOf? && body == ContentBody(info, c)
    ensures IsOpen(info, buf + (head + body), cs + [c], Open(c.t.tid, |buf|, 4 + |body|))
  {
    hide ContentBody, Wire;
    var more, after := cs + [c], buf + (head + body);
    assert more[|more| - 1] == c && more[..|more| - 1] == cs;
    assert after[..|buf|] == buf && after[|buf| + 4..] == body;
  }

  lemma LayoutMore(info: Info, buf: bytes, rec: bytes, cs: seq<Content>, c: Content, d: Content, o: Open)
    requires IsOpen(info, buf, cs + [c], o) && d.RecordsOf? && d.t == c.t
    requires ContentBody(info, d) == ContentBody(info, c) + rec
    ensures IsOpen(info, buf + rec, cs + [d], o.(size := o.size + |rec|))
  {
    hide ContentBody, Wire;
    assert (cs + [c])[|cs|] == c && (cs + [d])[|cs|] == d;
    assert (cs + [c])[..|cs|] == cs == (cs + [d])[..|cs|];
    assert (buf + rec)[..o.header] == buf[..o.header];
    assert (buf + rec)[o.header + 4..] == buf[o.header + 4..] + rec;
  }

  lemma OpenBounds(info: Info, buf: bytes, cs: seq<Content>, o: Open)
    requires o.tid != 0 && Layout(info, buf, cs, o)
    ensures IsOpen(info, buf, cs, o) && o.size >= 4 && o.header + o.size == |buf|
  {
  }

  lemma ClosedLayout(info: Info, buf: bytes, cs: seq<Content>, o: Open)
    requires o.tid == 0 && Layout(info, buf, cs, o)
    ensures buf == Wire(info, cs)
  {
  }

  lemma EmptyLayout(info: Info, o: Open)
    requires o.tid == 0
    ensures Layout(info, [], [], o) && AllData([]) == []
  {
  }

  lemma {:induction false} EmptyWire(info: Info, cs: seq<Content>)
    requires Wire(info, cs) == []
    ensures cs == []
  {
  }
}
