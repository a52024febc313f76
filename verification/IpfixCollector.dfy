/** The collector of ipfix_col.c: the template list of one source, and the walk over the sets and records of a
    message. */
module IpfixCollector {
  import opened Bytes
  import opened IpfixWire
  import opened Options

  // ---------------------------------------------------------------- the template list

  ghost predicate HasId(list: seq<Template>, k: nat) {
    exists i :: 0 <= i < |list| && list[i].tid == k
  }

  /** The list has every id once, and is the table. */
  ghost predicate Represents(list: seq<Template>, m: Table) {
    && (forall i, j :: 0 <= i < j < |list| ==> list[i].tid != list[j].tid)
    && (forall i :: 0 <= i < |list| ==> list[i].tid in m && m[list[i].tid] == list[i])
    && (forall k :: k in m ==> HasId(list, k))
  }

  lemma RepresentsFront(list: seq<Template>, m: Table, t: Template)
    requires Represents(list, m) && t.tid !in m
    ensures Represents([t] + list, m[t.tid := t])
  {
    var more := [t] + list;
    assert more[0] == t;
    forall k | k in m[t.tid := t]
      ensures HasId(more, k)
    {
      if k != t.tid {
        var i :| 0 <= i < |list| && list[i].tid == k;
        assert more[i + 1] == list[i];
      }
    }
  }

  function Removed(list: seq<Template>, i: nat): seq<Template>
    requires i < |list|
  {
    list[..i] + list[i + 1..]
  }

  lemma RepresentsRemoved(list: seq<Template>, m: Table, i: nat)
    requires Represents(list, m) && i < |list|
    ensures Represents(Removed(list, i), m - {list[i].tid})
  {
    var less := Removed(list, i);
    forall k | k in m && k != list[i].tid
      ensures HasId(less, k)
    {
      var j :| 0 <= j < |list| && list[j].tid == k;
      assert less[if j < i then j else j - 1] == list[j];
    }
  }

  lemma RepresentsReplaced(list: seq<Template>, m: Table, i: nat, t: Template)
    requires Represents(list, m) && i < |list| && list[i].tid == t.tid
    ensures Represents(list[i := t], m[t.tid := t])
  {
    var other := list[i := t];
    forall k | k in m[t.tid := t]
      ensures HasId(other, k)
    {
      if k == t.tid {
        assert other[i].tid == k;
      } else {
        var j :| 0 <= j < |list| && list[j].tid == k;
        assert other[j].tid == k;
      }
    }
  }

  lemma RepresentsAbsent(list: seq<Template>, m: Table, k: nat)
    requires Represents(list, m) && forall i :: 0 <= i < |list| ==> list[i].tid != k
    ensures k !in m && m - {k} == m
  {
  }

  // ---------------------------------------------------------------- over sequences of template records

  datatype Received = Received(setid: nat, s: bytes)

  /** The table after a run of template records. */
  function AppliedAll(records: seq<Received>): Table {
    if records == [] then map[] else
      var last := records[|records| - 1];
      Applied(AppliedAll(records[..|records| - 1]), ReadTemplateRecord(last.setid, last.s))
  }

  /** The record says something about the id. */
  predicate Concerns(r: Received, tid: nat) {
    match ReadTemplateRecord(r.setid, r.s)
    case Unreadable => false
    case Malformed(k) => k == tid
    case Defines(t, _) => t.tid == tid
    case Withdraws(k, _) => k == tid
    case WithdrawsAll(_) => true
  }

  ghost predicate Decides(records: seq<Received>, tid: nat, j: nat)
    requires j < |records|
  {
    Concerns(records[j], tid) && forall k :: j < k < |records| ==> !Concerns(records[k], tid)
  }

  /** The j-th record is the last that says something about the id, and is a good definition. */
  ghost predicate Rules(records: seq<Received>, tid: nat, j: nat) {
    j < |records| && Decides(records, tid, j) && ReadTemplateRecord(records[j].setid, records[j].s).Defines?
  }

  /** The last record that says something about an id decides: the id is known, with that definition, when it is a
      good definition, and is not when it is malformed or withdraws the id. Other records do not matter. */
  lemma {:induction false} LastRecordDecides(records: seq<Received>, tid: nat)
    ensures tid in AppliedAll(records) <==> exists j: nat :: Rules(records, tid, j)
    ensures forall j: nat :: Rules(records, tid, j) ==>
      tid in AppliedAll(records) && AppliedAll(records)[tid] == ReadTemplateRecord(records[j].setid, records[j].s).t
    decreases |records|
  {
    hide ReadTemplateRecord;
    if records != [] {
      var n := |records| - 1;
      var init, last := records[..n], records[n];
      LastRecordDecides(init, tid);
      if Concerns(last, tid) {
        assert Decides(records, tid, n);
        if ReadTemplateRecord(last.setid, last.s).Defines? {
          assert Rules(records, tid, n);
        }
      } else {
        forall j: nat
          ensures Rules(records, tid, j) <==> Rules(init, tid, j)
        {
          if j < n {
            assert Decides(records, tid, j) <==> Decides(init, tid, j);
          }
        }
      }
    }
  }

  // ---------------------------------------------------------------- the collector

  /** What decoding a template record returns: failure, or the bytes read and the definition if there is one. */
  datatype Decoded = NotDecoded | Decoded(used: nat, t: Option<Template>)

  function Returned(r: TemplateRecord): Decoded {
    match r
    case Unreadable => NotDecoded
    case Malformed(_) => NotDecoded
    case Defines(t, used) => Decoded(used, Some(t))
    case Withdraws(_, used) => Decoded(used, None)
    case WithdrawsAll(used) => Decoded(used, None)
  }

  /** Fields read so far before those still to be read. */
  function FieldsBefore(fields: seq<Field>, used: nat, r: Option<(seq<Field>, nat)>): Option<(seq<Field>, nat)> {
    if r == None then None else Some((fields + r.value.0, used + r.value.1))
  }

  lemma FieldsTurn(fields: seq<Field>, used: nat, s: bytes, n: nat)
    requires n > 0
    ensures FieldsBefore(fields, used, ReadFields(s, n)) ==
      var f := ReadField(s);
      if f == None then None
      else FieldsBefore(fields + [f.value.0], used + f.value.1, ReadFields(s[f.value.1..], n - 1))
  {
    hide ReadField;
    var f := ReadField(s);
    if f != None {
      var r := ReadFields(s[f.value.1..], n - 1);
      if r != None {
        assert fields + ([f.value.0] + r.value.0) == fields + [f.value.0] + r.value.0;
      }
    }
  }

  lemma FieldsEnd(fields: seq<Field>, used: nat, s: bytes)
    ensures FieldsBefore(fields, used, ReadFields(s, 0)) == Some((fields, used))
  {
    assert fields + [] == fields;
  }

  lemma FieldsStart(r: Option<(seq<Field>, nat)>)
    ensures FieldsBefore([], 0, r) == r
  {
    if r != None {
      assert [] + r.value.0 == r.value.0;
    }
  }

  /** The templates of one source: a list, newest first. */
  class Source {
    var templates: seq<Template>
    ghost var table: Table

    ghost predicate Valid()
      reads this
    {
      Represents(templates, table)
    }

    constructor ()
      ensures Valid() && table == map[]
    {
      templates, table := [], map[];
    }

    /** The place of the template with an id in the list. */
    method Find(tid: nat) returns (at: Option<nat>)
      requires Valid()
      ensures at.Some? <==> tid in table
      ensures at.Some? ==> at.value < |templates| && templates[at.value].tid == tid && templates[at.value] == table[tid]
    {
      var i := 0;
      while i < |templates|
        invariant i <= |templates|
        invariant forall j :: 0 <= j < i ==> templates[j].tid != tid
      {
        if templates[i].tid == tid {
          return Some(i);
        }
        i := i + 1;
      }
      RepresentsAbsent(templates, table, tid);
      return None;
    }

    method Delete(i: nat)
      requires Valid() && i < |templates|
      modifies this
      ensures Valid() && table == old(table) - {old(templates)[i].tid}
    {
      RepresentsRemoved(templates, table, i);
      table := table - {templates[i].tid};
      templates := Removed(templates, i);
    }

    method DeleteAll()
      requires Valid()
      modifies this
      ensures Valid() && table == map[]
    {
      while templates != []
        invariant Valid()
        decreases |templates|
      {
        RepresentsRemoved(templates, table, 0);
        assert Removed(templates, 0) == templates[1..];
        table := table - {templates[0].tid};
        templates := templates[1..];
      }
      NothingRepresented(table);
    }

    lemma NothingRepresented(m: Table)
      requires Represents([], m)
      ensures m == map[]
    {
      assert forall k :: !HasId([], k);
      assert forall k :: k !in m;
    }

    /** Reads the definition of a new template; it enters the list at the front when it is complete. */
    method DefineNew(h: RecordHead, s: bytes) returns (r: Decoded)
      requires Valid() && h.tid !in table && h.used <= |s| && h.nfields > 0
      modifies this
      ensures Valid()
      ensures match ReadFields(s[h.used..], h.nfields)
        case None => r == NotDecoded && table == old(table)
        case Some(fs) =>
          var t := Template(h.tid, h.nscope, fs.0);
          r == Decoded(h.used + fs.1, Some(t)) && table == old(table)[h.tid := t]
    {
      hide ReadField, ReadFields, FieldsBefore, Represents;
      var fields: seq<Field> := [];
      var offset := h.used;
      ghost var all := ReadFields(s[offset..], h.nfields);
      FieldsStart(all);
      while |fields| < h.nfields
        invariant h.used <= offset <= |s| && |fields| <= h.nfields
        invariant templates == old(templates) && table == old(table)
        invariant all == FieldsBefore(fields, offset - h.used, ReadFields(s[offset..], h.nfields - |fields|))
      {
        FieldsTurn(fields, offset - h.used, s[offset..], h.nfields - |fields|);
        var f := ReadField(s[offset..]);
        if f == None {
          return NotDecoded;
        }
        assert s[offset..][f.value.1..] == s[offset + f.value.1..];
        fields := fields + [f.value.0];
        offset := offset + f.value.1;
      }
      FieldsEnd(fields, offset - h.used, s[offset..]);
      var t := Template(h.tid, h.nscope, fields);
      RepresentsFront(templates, table, t);
      templates, table := [t] + templates, table[h.tid := t];
      return Decoded(offset, Some(t));
    }

    /** Overwrites a definition of at least as many fields where it is. When the new one turns out bad, what is
        left of the old one is deleted. */
    method DefineInPlace(h: RecordHead, s: bytes, i: nat) returns (r: Decoded)
      requires Valid() && i < |templates| && templates[i].tid == h.tid
      requires h.used <= |s| && 0 < h.nfields <= |templates[i].fields|
      modifies this
      ensures Valid()
      ensures match ReadFields(s[h.used..], h.nfields)
        case None => r == NotDecoded && table == old(table) - {h.tid}
        case Some(fs) =>
          var t := Template(h.tid, h.nscope, fs.0);
          r == Decoded(h.used + fs.1, Some(t)) && table == old(table)[h.tid := t]
    {
      hide ReadField, ReadFields, FieldsBefore, Represents;
      ghost var start := templates;
      var t := Template(h.tid, h.nscope, templates[i].fields[..h.nfields]);
      templates := templates[i := t];
      var n, offset := 0, h.used;
      ghost var all := ReadFields(s[offset..], h.nfields);
      FieldsStart(all);
      while n < h.nfields
        invariant h.used <= offset <= |s| && n <= h.nfields
        invariant t.tid == h.tid && t.nscope == h.nscope && |t.fields| == h.nfields
        invariant templates == start[i := t] && table == old(table)
        invariant all == FieldsBefore(t.fields[..n], offset - h.used, ReadFields(s[offset..], h.nfields - n))
      {
        FieldsTurn(t.fields[..n], offset - h.used, s[offset..], h.nfields - n);
        var f := ReadField(s[offset..]);
        if f == None {
          RepresentsReplaced(start, table, i, t);
          table := table[h.tid := t];
          Delete(i);
          assert table == old(table) - {h.tid};
          return NotDecoded;
        }
        assert s[offset..][f.value.1..] == s[offset + f.value.1..];
        ghost var before := t.fields[..n];
        t := t.(fields := t.fields[n := f.value.0]);
        assert t.fields[..n + 1] == before + [f.value.0];
        templates := templates[i := t];
        n, offset := n + 1, offset + f.value.1;
      }
      FieldsEnd(t.fields[..n], offset - h.used, s[offset..]);
      assert t.fields[..n] == t.fields;
      RepresentsReplaced(start, table, i, t);
      table := table[h.tid := t];
      return Decoded(offset, Some(t));
    }

    /** One template record: a definition with more fields than the one known replaces it by a new node, one with as
        many or fewer is written over it. */
    method DecodeTemplateRecord(setid: nat, s: bytes) returns (r: Decoded)
      requires Valid()
      modifies this
      ensures Valid()
      ensures table == Applied(old(table), ReadTemplateRecord(setid, s))
      ensures r == Returned(ReadTemplateRecord(setid, s))
    {
      hide ReadRecordHead, ReadFields, Represents;
      var h := ReadRecordHead(setid, s);
      if h == None {
        return NotDecoded;
      }
      if h.value.nfields == 0 {
        if h.value.tid == setid {
          DeleteAll();
        } else {
          var n := Find(h.value.tid);
          if n.Some? {
            Delete(n.value);
          } else {
            assert table - {h.value.tid} == table;
          }
        }
        return Decoded(h.value.used, None);
      }
      ghost var was := table;
      var n := Find(h.value.tid);
      if n == None || h.value.nfields > |templates[n.value].fields| {
        if n.Some? {
          Delete(n.value);
        }
        assert table == was - {h.value.tid};
        r := DefineNew(h.value, s);
      } else {
        r := DefineInPlace(h.value, s, n.value);
      }
    }

    /** The template records of a set. */
    method DecodeTemplateSet(setid: nat, s: bytes)
      requires Valid()
      modifies this
      ensures Valid() && table == ReadTemplateSet(old(table), setid, s)
    {
      hide ReadTemplateRecord, Represents;
      var offset, bytesleft := 0, |s|;
      ghost var after := ReadTemplateSet(table, setid, s);
      while bytesleft > 4
        invariant Valid() && offset <= |s| && bytesleft == |s| - offset
        invariant after == ReadTemplateSet(table, setid, s[offset..])
        decreases bytesleft
      {
        ghost var here, was := s[offset..], table;
        TemplateSetTurn(was, setid, here);
        var r := DecodeTemplateRecord(setid, s[offset..]);
        if r == NotDecoded {
          return;
        }
        assert here[r.used..] == s[offset + r.used..];
        offset, bytesleft := offset + r.used, bytesleft - r.used;
      }
    }

    lemma TemplateSetTurn(m: Table, setid: nat, s: bytes)
      requires |s| > 4
      ensures var r := ReadTemplateRecord(setid, s);
        if Returned(r) == NotDecoded then ReadTemplateSet(m, setid, s) == Applied(m, r)
        else 0 < Returned(r).used <= |s|
             && ReadTemplateSet(m, setid, s) == ReadTemplateSet(Applied(m, r), setid, s[Returned(r).used..])
    {
      hide ReadRecordHead, ReadFields;
    }

    /** The sets of a message. The message is an array: values are decoded where they are. */
    method ParseMessage(info: Info, msg: array<byte>) returns (records: seq<Datum>, end: Ending)
      requires Valid() && msg.Length >= 2
      modifies this, msg
      ensures Valid()
      ensures Parsed(table, records, end) == ReadMessage(info, old(table), old(msg[..]))
    {
      hide ReadSets, Represents, Read16;
      ghost var s := msg[..];
      assert forall k :: 0 <= k <= |s| ==> s[k..] == msg[k..];
      var version := ReadU16(msg, 0);
      if version == VERSION {
        if msg.Length < HDR_BYTES {
          return [], Failed;
        }
        records, end := ParseSets(info, msg, HDR_BYTES, msg.Length);
      } else if version == VERSION_NF9 {
        if msg.Length < HDR_BYTES_NF9 {
          return [], Failed;
        }
        var count := ReadU16(msg, 2);
        records, end := ParseSets(info, msg, HDR_BYTES_NF9, count);
      } else {
        return [], Failed;
      }
    }

    method ParseSets(info: Info, msg: array<byte>, start: nat, count: nat) returns (records: seq<Datum>, end: Ending)
      requires Valid() && start <= msg.Length
      modifies this, msg
      ensures Valid()
      ensures Parsed(table, records, end) == ReadSets(info, old(table), old(msg[start..]), count, false)
    {
      hide ReadSets, ReadTemplateSet, ReadDataSet, Represents, Read16, Before;
      ghost var whole := ReadSets(info, table, msg[start..], count, false);
      var nread, i, err := start, 0, false;
      records := [];
      BeforeNothing(whole);
      while nread + 4 < msg.Length && i < count
        invariant Valid() && start <= nread <= msg.Length && i <= count
        invariant whole == Before(records, ReadSets(info, table, msg[nread..], count - i, err))
        decreases msg.Length - nread
      {
        ghost var s := msg[nread..];
        SetsTurn(info, table, s, count - i, err);
        var setid := ReadU16(msg, nread);
        var setlen := ReadU16(msg, nread + 2);
        TwoNumbers(s);
        assert s[2..] == msg[nread + 2..] && s[4..] == msg[nread + 4..];
        nread, i := nread + 4, i + 1;
        if setlen < 4 {
          continue;
        }
        setlen := setlen - 4;
        if setlen > msg.Length - nread {
          BeforeEnd(records, table, Fine);
          return records, Fine;
        }
        ghost var body := msg[nread..];
        assert body[setlen..] == msg[nread + setlen..] && body[..setlen] == msg[nread..nread + setlen];
        if IsTemplateSet(setid) {
          DecodeTemplateSet(setid, msg[nread..nread + setlen]);
        } else if setid > 255 {
          var n := Find(setid);
          if n == None {
            err := true;
          } else {
            var ds, e := ParseDataSet(info, templates[n.value], msg, nread, setlen);
            if e != Fine {
              BeforeRest(records, ds, table, e);
              return records + ds, e;
            }
            BeforeBefore(records, ds, ReadSets(info, table, msg[nread + setlen..], count - i, err));
            records := records + ds;
          }
        }
        nread := nread + setlen;
      }
      SetsEnd(info, table, msg[nread..], count - i, err);
      end := if err then Failed else Fine;
      BeforeEnd(records, table, end);
    }
  }

  lemma BeforeNothing(p: Parsed)
    ensures Before([], p) == p
  {
    assert [] + p.records == p.records;
  }

  lemma BeforeEnd(records: seq<Datum>, m: Table, end: Ending)
    ensures Before(records, Parsed(m, [], end)) == Parsed(m, records, end)
  {
    assert records + [] == records;
  }

  lemma BeforeRest(a: seq<Datum>, b: seq<Datum>, m: Table, end: Ending)
    ensures Before(a, Parsed(m, b, end)) == Parsed(m, a + b, end)
  {
  }

  lemma TwoNumbers(s: bytes)
    requires |s| >= 4
    ensures Read16(s, 2) == Read16(s[2..], 0)
  {
  }

  lemma SetsEnd(info: Info, m: Table, s: bytes, count: nat, err: bool)
    requires |s| <= 4 || count == 0
    ensures ReadSets(info, m, s, count, err) == Parsed(m, [], if err then Failed else Fine)
  {
  }

  /** The ways a turn of the loop over the sets can go. */
  lemma SetsTurn(info: Info, m: Table, s: bytes, count: nat, err: bool)
    requires |s| > 4 && count > 0
    ensures var setid, setlen, body := Read16(s, 0), Read16(s, 2), s[4..];
      ReadSets(info, m, s, count, err) ==
      if setlen < 4 then ReadSets(info, m, body, count - 1, err)
      else if setlen - 4 > |body| then Parsed(m, [], Fine)
      else if IsTemplateSet(setid) then
        ReadSets(info, ReadTemplateSet(m, setid, body[..setlen - 4]), body[setlen - 4..], count - 1, err)
      else if setid <= 255 then ReadSets(info, m, body[setlen - 4..], count - 1, err)
      else if setid !in m then ReadSets(info, m, body[setlen - 4..], count - 1, true)
      else
        var d := ReadDataSet(info, m[setid], [], body, setlen - 4);
        if d.end == Fine then Before(d.records, ReadSets(info, m, d.after, count - 1, err))
        else Parsed(m, d.records, d.end)
  {
    hide ReadTemplateSet, ReadDataSet, Read16;
  }

  // ---------------------------------------------------------------- reading from the message

  method ReadU16(msg: array<byte>, at: nat) returns (n: nat)
    requires at + 2 <= msg.Length
    ensures n == Read16(msg[at..], 0) == Read16(msg[..], at) < 0x1_0000
  {
    n := msg[at] as int * 0x100 + msg[at + 1];
  }

  /** A value and what is around it, after it has been written. */
  lemma DecodedAt(before: bytes, after: bytes, at: nat, v: bytes)
    requires |before| == |after| && at + |v| <= |after|
    requires forall i :: 0 <= i < |v| ==> after[at + i] == v[i]
    requires forall i :: 0 <= i < at || at + |v| <= i < |after| ==> after[i] == before[i]
    ensures after[at..at + |v|] == v && after[..at] == before[..at] && after[at + |v|..] == before[at + |v|..]
  {
  }

  method TurnRound(msg: array<byte>, at: nat, len: nat)
    requires at + len <= msg.Length
    modifies msg
    ensures msg[at..at + len] == Reversed(old(msg[at..at + len]))
    ensures msg[..at] == old(msg[..at]) && msg[at + len..] == old(msg[at + len..])
  {
    hide Reversed;
    ghost var before, was := msg[..], msg[at..at + len];
    var i := 0;
    while i < len / 2
      invariant 0 <= i <= len / 2
      invariant forall k :: at <= k < at + len ==>
        msg[k] == if at + i <= k < at + len - i then was[k - at] else was[len - 1 - (k - at)]
      invariant forall k :: 0 <= k < at || at + len <= k < msg.Length ==> msg[k] == before[k]
    {
      msg[at + i], msg[at + len - 1 - i] := msg[at + len - 1 - i], msg[at + i];
      i := i + 1;
    }
    DecodedAt(before, msg[..], at, Reversed(was));
  }

  method Overwrite(msg: array<byte>, at: nat, len: nat)
    requires at + len <= msg.Length
    modifies msg
    ensures msg[at..at + len] == Filled(len)
    ensures msg[..at] == old(msg[..at]) && msg[at + len..] == old(msg[at + len..])
  {
    hide Filled;
    ghost var before := msg[..];
    forall k | 0 <= k < len {
      msg[at + k] := 0xff;
    }
    DecodedAt(before, msg[..], at, Filled(len));
  }

  /** Turns a number of a supported length round; overwrites one of another length. */
  method DecodeInPlace(c: Coding, msg: array<byte>, at: nat, len: nat)
    requires at + len <= msg.Length
    modifies msg
    ensures msg[at..at + len] == Coded(c, old(msg[at..at + len]))
    ensures msg[..at] == old(msg[..at]) && msg[at + len..] == old(msg[at + len..])
  {
    hide Reversed, Filled;
    if c == BytesCoding {
      return;
    }
    if Supported(c, len) {
      TurnRound(msg, at, len);
    } else {
      Overwrite(msg, at, len);
    }
  }

  /** Values read so far before those still to be read. */
  function ValuesBefore(vals: seq<bytes>, image: bytes, r: RecordRead): RecordRead {
    if r.RecordRead? then RecordRead(vals + r.vals, image + r.image) else r
  }

  lemma ValuesTurn(info: Info, vals: seq<bytes>, image: bytes, fields: seq<Field>, s: bytes, left: int)
    requires fields != []
    ensures ValuesBefore(vals, image, ReadRecord(info, fields, s, left)) ==
      match ReadValue(info, fields[0], s, left)
      case ValueTooShort => TooShort
      case ValueOverrun => Overrun
      case ValueRead(v, e) =>
        ValuesBefore(vals + [v], image + e, ReadRecord(info, fields[1..], s[|e|..], left - |v|))
  {
    hide ReadValue;
    var x := ReadValue(info, fields[0], s, left);
    if x.ValueRead? {
      var r := ReadRecord(info, fields[1..], s[|x.image|..], left - |x.v|);
      if r.RecordRead? {
        assert vals + ([x.v] + r.vals) == vals + [x.v] + r.vals;
        assert image + (x.image + r.image) == image + x.image + r.image;
      }
    }
  }

  lemma ValuesEnd(info: Info, vals: seq<bytes>, image: bytes, s: bytes, left: int)
    ensures ValuesBefore(vals, image, ReadRecord(info, [], s, left)) == RecordRead(vals, image)
  {
    assert vals + [] == vals && image + [] == image;
  }

  lemma ValuesStart(r: RecordRead)
    ensures ValuesBefore([], [], r) == r
  {
    if r.RecordRead? {
      assert [] + r.vals == r.vals && [] + r.image == r.image;
    }
  }

  /** The length of the next value, which stands before it when it is variable. */
  method ReadLengthAt(f: Field, msg: array<byte>, p: nat) returns (r: Option<(nat, nat)>)
    requires p <= msg.Length
    ensures r == ReadLength(f, msg[p..])
  {
    var len := f.flength;
    if len != VARLEN {
      return Some((len, 0));
    }
    if p >= msg.Length {
      return None;
    }
    len := msg[p];
    if len != 255 {
      return Some((len, 1));
    }
    if p + 3 > msg.Length {
      return None;
    }
    var n := ReadU16(msg, p + 1);
    assert msg[p + 1..][..2] == msg[p..][1..3];
    return Some((n, 3));
  }

  lemma Slices(s: bytes, p: nat, from: nat, len: nat)
    requires p + from + len <= |s|
    ensures s[p..][from..from + len] == s[p + from..p + from + len]
  {
  }

  /** One value, decoded where it is; its length bytes are left. Where the code would read beyond the message, the
      result is an overrun instead. */
  method DecodeValue(info: Info, f: Field, msg: array<byte>, p: nat, left: int) returns (r: ValueRead)
    requires p <= msg.Length
    modifies msg
    ensures r == ReadValue(info, f, old(msg[p..]), left)
    ensures r.ValueRead? ==> p + |r.image| <= msg.Length && msg[p..p + |r.image|] == r.image
    ensures r.ValueRead? ==> msg[p + |r.image|..] == old(msg[p + |r.image|..]) && msg[..p] == old(msg[..p])
  {
    hide ReadLength, Coded;
    ghost var s := msg[p..];
    var l := ReadLengthAt(f, msg, p);
    if l == None {
      return ValueOverrun;
    }
    var (len, from) := l.value;
    if left - len < 0 {
      return ValueTooShort;
    }
    if p + from + len > msg.Length {
      return ValueOverrun;
    }
    var q := p + from;
    Slices(msg[..], p, from, len);
    assert msg[..][p..] == s && msg[..][q..q + len] == msg[q..q + len];
    ghost var front, back := msg[..q], msg[q + len..];
    DecodeInPlace(info(f.eno, f.ftype), msg, q, len);
    assert msg[..q] == front && msg[q + len..] == back;
    assert msg[..p] == front[..p] && msg[p..q] == front[p..];
    assert front[p..] == s[..from];
    var v := msg[q..q + len];
    var image := msg[p..q + len];
    assert image == msg[p..q] + v;
    return ValueRead(v, image);
  }

  /** A message before and after `k` bytes at `p` have been decoded. */
  lemma MovedOn(before: bytes, after: bytes, s0: bytes, at: nat, p: nat, k: nat)
    requires |before| == |after| && at <= p && p + k <= |after| && |s0| == |before| - at
    requires before[p..] == s0[p - at..] && after[..p] == before[..p] && after[p + k..] == before[p + k..]
    ensures after[at..p + k] == before[at..p] + after[p..p + k]
    ensures after[p + k..] == s0[p + k - at..] == s0[p - at..][k..]
  {
    assert after[at..p] == after[..p][at..] == before[..p][at..] == before[at..p];
    assert before[p + k..] == before[p..][k..];
  }

  method DecodeDataRecord(info: Info, t: Template, msg: array<byte>, at: nat, bytesleft: int) returns (r: RecordRead)
    requires at <= msg.Length
    modifies msg
    ensures r == ReadRecord(info, t.fields, old(msg[at..]), bytesleft)
    ensures r.RecordRead? ==> at + |r.image| <= msg.Length && msg[at..at + |r.image|] == r.image
    ensures r.RecordRead? ==> msg[at + |r.image|..] == old(msg[at + |r.image|..])
  {
    hide ReadRecord, ReadValue, ValuesBefore;
    ghost var s0 := msg[at..];
    ghost var whole := ReadRecord(info, t.fields, s0, bytesleft);
    var left, p, i := bytesleft, at, 0;
    var vals: seq<bytes> := [];
    ValuesStart(whole);
    assert t.fields[0..] == t.fields && msg[at..p] == [];
    while i < |t.fields|
      invariant i <= |t.fields| && at <= p <= msg.Length && |s0| == msg.Length - at
      invariant msg[p..] == s0[p - at..]
      invariant whole == ValuesBefore(vals, msg[at..p], ReadRecord(info, t.fields[i..], s0[p - at..], left))
    {
      ghost var s, image, was := s0[p - at..], msg[at..p], msg[..];
      ValuesTurn(info, vals, image, t.fields[i..], s, left);
      assert t.fields[i..][0] == t.fields[i] && t.fields[i..][1..] == t.fields[i + 1..];
      var r1 := DecodeValue(info, t.fields[i], msg, p, left);
      if r1.ValueOverrun? {
        return Overrun;
      } else if r1.ValueTooShort? {
        return TooShort;
      }
      MovedOn(was, msg[..], s0, at, p, |r1.image|);
      left, p, i := left - |r1.v|, p + |r1.image|, i + 1;
      vals := vals + [r1.v];
    }
    assert t.fields[i..] == [];
    ValuesEnd(info, vals, msg[at..p], s0[p - at..], left);
    return RecordRead(vals, msg[at..p]);
  }

  /** Records read so far before those still to be read. */
  function RecordsBefore(ds: seq<Datum>, r: SetRead): SetRead {
    SetRead(ds + r.records, r.after, r.end)
  }

  lemma DataSetTurn(info: Info, ds: seq<Datum>, t: Template, last: bytes, s: bytes, left: int)
    requires -|last| <= 4 < left <= |s|
    ensures var r := ReadRecord(info, t.fields, s, left);
      RecordsBefore(ds, ReadDataSet(info, t, last, s, left)) ==
      if r.TooShort? then SetRead(ds, [], Failed)
      else if r.Overrun? then SetRead(ds, [], Beyond)
      else if r.image == [] then SetRead(ds, [], Endless)
      else RecordsBefore(ds + [Datum(t.tid, r.vals)],
                         ReadDataSet(info, t, r.image, s[|r.image|..], left - |r.image|))
  {
    hide ReadRecord;
    var r := ReadRecord(info, t.fields, s, left);
    assert ds + [] == ds;
    if r.RecordRead? && r.image != [] {
      var rest := ReadDataSet(info, t, r.image, s[|r.image|..], left - |r.image|);
      assert ds + ([Datum(t.tid, r.vals)] + rest.records) == ds + [Datum(t.tid, r.vals)] + rest.records;
    }
  }

  lemma DataSetEnd(info: Info, ds: seq<Datum>, t: Template, last: bytes, s: bytes, left: int)
    requires -|last| <= left <= |s| && left <= 4
    ensures RecordsBefore(ds, ReadDataSet(info, t, last, s, left)) == SetRead(ds, AfterSet(last, s, left), Fine)
  {
    assert ds + [] == ds;
  }

  lemma DataSetStart(r: SetRead)
    ensures RecordsBefore([], r) == r
  {
    assert [] + r.records == r.records;
  }

  /** The records of a set; up to four bytes at its end are padding. Where the code would read a record of no bytes
      for ever, the result is Endless instead. */
  method ParseDataSet(info: Info, t: Template, msg: array<byte>, at: nat, setlen: nat)
    returns (ds: seq<Datum>, end: Ending)
    requires at + setlen <= msg.Length
    modifies msg
    ensures var d := ReadDataSet(info, t, [], old(msg[at..]), setlen);
      ds == d.records && end == d.end && (end == Fine ==> msg[at + setlen..] == d.after)
  {
    hide ReadRecord, ReadDataSet, AfterSet, RecordsBefore;
    ghost var s0 := msg[at..];
    ghost var whole := ReadDataSet(info, t, [], s0, setlen);
    ds := [];
    var offset, bytesleft: int := at, setlen;
    ghost var last: bytes := [];
    DataSetStart(whole);
    while bytesleft > 4
      invariant at <= offset <= msg.Length && bytesleft == at + setlen - offset && |s0| == msg.Length - at
      invariant -|last| <= bytesleft && |last| <= offset - at && msg[offset - |last|..offset] == last
      invariant msg[offset..] == s0[offset - at..]
      invariant whole == RecordsBefore(ds, ReadDataSet(info, t, last, s0[offset - at..], bytesleft))
      decreases bytesleft
    {
      ghost var s, was := s0[offset - at..], msg[..];
      DataSetTurn(info, ds, t, last, s, bytesleft);
      var r := DecodeDataRecord(info, t, msg, offset, bytesleft);
      if r.TooShort? {
        return ds, Failed;
      } else if r.Overrun? {
        return ds, Beyond;
      } else if |r.image| == 0 {
        return ds, Endless;
      }
      var bytes := |r.image|;
      SlicesFurther(s0, offset - at, bytes);
      SlicesFurther(was, offset, bytes);
      ds := ds + [Datum(t.tid, r.vals)];
      last := r.image;
      offset, bytesleft := offset + bytes, bytesleft - bytes;
    }
    DataSetEnd(info, ds, t, last, s0[offset - at..], bytesleft);
    AfterSetIs(msg, at + setlen, offset, last);
    return ds, Fine;
  }

  lemma SlicesFurther(s: bytes, p: nat, k: nat)
    requires p + k <= |s|
    ensures s[p..][k..] == s[p + k..]
  {
  }

  lemma AfterSetIs(msg: array<byte>, setend: nat, offset: nat, last: bytes)
    requires setend <= msg.Length && offset <= msg.Length && |last| <= offset && -|last| <= setend - offset
    requires msg[offset - |last|..offset] == last
    ensures AfterSet(last, msg[offset..], setend - offset) == msg[setend..]
  {
    if setend < offset {
      assert last[|last| + (setend - offset)..] == msg[setend..offset];
      assert msg[setend..offset] + msg[offset..] == msg[setend..];
    }
  }
}
