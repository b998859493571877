/** The bounded list of match records that the C batch front end prints, and reading it back. */
module MatchList {
  import opened Options
  import opened Bytes
  import opened Decimals
  import opened JsonText

  datatype Hit = Hit(name: seq<byte>, position: nat)

  /** `{"signature":"` */
  const OPENING: seq<byte> := [123, 34, 115, 105, 103, 110, 97, 116, 117, 114, 101, 34, 58, 34]

  /** `,"position":`, after the quote that closes the name */
  const MIDDLE: seq<byte> := [44, 34, 112, 111, 115, 105, 116, 105, 111, 110, 34, 58]

  const COMMA: byte := 44
  const CLOSING: byte := 125
  const ENTRY_SIZE: nat := 512

  /** One record as printed; all but the first are preceded by a comma. */
  function RecordText(first: bool, h: Hit): seq<byte> {
    (if first then [] else [COMMA]) + Body(h)
  }

  function Body(h: Hit): seq<byte> {
    OPENING + (Escape(h.name) + [QUOTE] + (MIDDLE + (Decimal(h.position) + [CLOSING])))
  }

  ghost function ListText(first: bool, hits: seq<Hit>): seq<byte> {
    if hits == [] then [] else RecordText(first, hits[0]) + ListText(false, hits[1..])
  }

  lemma {:induction false} ListSnoc(first: bool, hits: seq<Hit>, h: Hit)
    ensures ListText(first, hits + [h]) == ListText(first, hits) + RecordText(first && hits == [], h)
    decreases |hits|
  {
    if hits == [] {
      assert [h][1..] == [];
      assert hits + [h] == [h];
    } else {
      assert (hits + [h])[1..] == hits[1..] + [h];
      ListSnoc(false, hits[1..], h);
    }
  }

  // ------------------------------------------------------------------ reading records back

  function Strip(prefix: seq<byte>, b: seq<byte>): (r: Option<seq<byte>>)
    ensures r.Some? ==> |r.value| == |b| - |prefix|
  {
    if |prefix| <= |b| && b[..|prefix|] == prefix then Some(b[|prefix|..]) else None
  }

  lemma StripBack(prefix: seq<byte>, rest: seq<byte>)
    ensures Strip(prefix, prefix + rest) == Some(rest)
  {
  }

  /** A number and the bracket that closes its record. */
  function ReadPosition(b: seq<byte>): (r: Option<(nat, seq<byte>)>)
    ensures r.Some? ==> |r.value.1| <= |b|
  {
    var k := DigitCount(b);
    if k == 0 || k >= |b| || b[k] != CLOSING then None else Some((Value(b[..k]), b[k + 1..]))
  }

  lemma PositionBack(n: nat, rest: seq<byte>)
    ensures ReadPosition(Decimal(n) + [CLOSING] + rest) == Some((n, rest))
  {
    var b := Decimal(n) + [CLOSING] + rest;
    assert b == Decimal(n) + ([CLOSING] + rest);
    DigitsThen(Decimal(n), [CLOSING] + rest);
    ValueDecimal(n);
    assert b[|Decimal(n)| + 1..] == rest;
  }

  function ReadRecord(b: seq<byte>): (r: Option<(Hit, seq<byte>)>)
    ensures r.Some? ==> |r.value.1| < |b|
  {
    match Strip(OPENING, b)
    case None => None
    case Some(c) =>
      match ReadString(c)
      case None => None
      case Some((name, d)) =>
        match Strip(MIDDLE, d)
        case None => None
        case Some(e) =>
          match ReadPosition(e)
          case None => None
          case Some((n, rest)) => Some((Hit(name, n), rest))
  }

  lemma RecordBack(h: Hit, rest: seq<byte>)
    ensures ReadRecord(Body(h) + rest) == Some((h, rest))
  {
    var e := Decimal(h.position) + [CLOSING] + rest;
    var d := MIDDLE + e;
    var c := Escape(h.name) + [QUOTE] + d;
    assert Body(h) + rest == OPENING + c;
    StripBack(OPENING, c);
    EscapeBack(h.name, d);
    StripBack(MIDDLE, e);
    PositionBack(h.position, rest);
  }

  /** A reader of one record uses up some of what it reads. */
  ghost predicate Progresses(read: seq<byte> -> Option<(Hit, seq<byte>)>) {
    forall b :: read(b).Some? ==> |read(b).value.1| < |b|
  }

  /** Reads a whole list of records with a reader for one. */
  function ReadAll(read: seq<byte> -> Option<(Hit, seq<byte>)>, first: bool, b: seq<byte>): Option<seq<Hit>>
    requires Progresses(read)
    decreases |b|
  {
    if b == [] then Some([])
    else if !first && b[0] != COMMA then None
    else
      match read(if first then b else b[1..])
      case None => None
      case Some((h, rest)) =>
        match ReadAll(read, false, rest)
        case None => None
        case Some(hits) => Some([h] + hits)
  }

  ghost predicate ReadsBack(read: seq<byte> -> Option<(Hit, seq<byte>)>, body: seq<byte>, h: Hit, rest: seq<byte>) {
    read(body + rest) == Some((h, rest))
  }

  lemma AllFollows(read: seq<byte> -> Option<(Hit, seq<byte>)>, first: bool, h: Hit, body: seq<byte>, rest: seq<byte>,
                   hits: seq<Hit>)
    requires Progresses(read) && ReadsBack(read, body, h, rest) && ReadAll(read, false, rest) == Some(hits)
    ensures ReadAll(read, first, (if first then [] else [COMMA]) + body + rest) == Some([h] + hits)
  {
    var b := (if first then [] else [COMMA]) + body + rest;
    assert first ==> b == body + rest;
    assert !first ==> b == [COMMA] + (body + rest);
  }

  lemma {:induction false} AllBack(read: seq<byte> -> Option<(Hit, seq<byte>)>, first: bool, hits: seq<Hit>)
    requires Progresses(read) && forall h, rest :: ReadsBack(read, Body(h), h, rest)
    ensures ReadAll(read, first, ListText(first, hits)) == Some(hits)
    decreases |hits|
  {
    if hits != [] {
      var h, rest := hits[0], ListText(false, hits[1..]);
      AllBack(read, false, hits[1..]);
      assert ReadsBack(read, Body(h), h, rest);
      AllFollows(read, first, h, Body(h), rest, hits[1..]);
      assert [h] + hits[1..] == hits;
    }
  }

  function ReadList(b: seq<byte>): Option<seq<Hit>> {
    ReadAll(ReadRecord, true, b)
  }

  /** The printed list reads back as exactly the records, in order. */
  lemma ListBack(hits: seq<Hit>)
    ensures ReadList(ListText(true, hits)) == Some(hits)
  {
    forall h, rest ensures ReadsBack(ReadRecord, Body(h), h, rest) {
      RecordBack(h, rest);
    }
    AllBack(ReadRecord, true, hits);
  }

  // ------------------------------------------------------------------ the callback

  /** A record is added when its name, the record and the list all fit their buffers. */
  ghost predicate Fits(scratchCap: nat, capacity: nat, hits: seq<Hit>, h: Hit) {
    var text := RecordText(hits == [], h);
    |Escape(h.name)| < scratchCap && |text| < ENTRY_SIZE && |ListText(true, hits)| + |text| + 1 < capacity
  }

  /** The records kept after a series of hits. */
  ghost function Kept(scratchCap: nat, capacity: nat, hits: seq<Hit>, more: seq<Hit>): seq<Hit> {
    if more == [] then hits
    else
      var before, h := Kept(scratchCap, capacity, hits, more[..|more| - 1]), more[|more| - 1];
      if Fits(scratchCap, capacity, before, h) then before + [h] else before
  }

  lemma {:induction false} KeptBound(scratchCap: nat, capacity: nat, hits: seq<Hit>, more: seq<Hit>)
    ensures |Kept(scratchCap, capacity, hits, more)| <= |hits| + |more|
    ensures |Kept(scratchCap, capacity, hits, more)| == |hits| + |more| ==>
              Kept(scratchCap, capacity, hits, more) == hits + more
    decreases |more|
  {
    if more != [] {
      KeptBound(scratchCap, capacity, hits, more[..|more| - 1]);
      assert hits + more == (hits + more[..|more| - 1]) + [more[|more| - 1]];
    }
  }

  lemma KeptNext(scratchCap: nat, capacity: nat, hits: seq<Hit>, more: seq<Hit>, i: nat)
    requires i < |more|
    ensures var before := Kept(scratchCap, capacity, hits, more[..i]);
      Kept(scratchCap, capacity, hits, more[..i + 1]) ==
        if Fits(scratchCap, capacity, before, more[i]) then before + [more[i]] else before
  {
    assert more[..i + 1][..i] == more[..i];
  }

  ghost predicate NulFree(reports: seq<Hit>, i: nat)
    requires i < |reports|
  {
    0 !in reports[i].name
  }

  lemma {:induction false} NoNul(s: seq<byte>)
    requires 0 !in s
    ensures 0 !in Escape(s)
  {
    if s != [] {
      assert s[|s| - 1] in s;
      NoNul(s[..|s| - 1]);
    }
  }

  lemma {:induction false} CStringStops(text: seq<byte>, rest: seq<byte>)
    requires 0 !in text
    ensures CString(text + [0] + rest) == text
    decreases |text|
  {
    var b := text + [0] + rest;
    if text != [] {
      assert text[0] in text;
      assert b[1..] == text[1..] + [0] + rest;
      CStringStops(text[1..], rest);
    }
  }

  class MatchContext {
    const buffer: array<byte>
    const capacity: nat
    var used: nat
    var count: nat
    var overflow: bool
    const scratch: array<byte>
    const scratchCap: nat
    ghost var hits: seq<Hit>

    /** The buffer holds the printed list and, once there is a record, ends it with a NUL. */
    ghost predicate Valid()
      reads this, buffer
    {
      && buffer != scratch && capacity <= buffer.Length && 0 < scratchCap <= scratch.Length
      && used <= capacity && buffer[..used] == ListText(true, hits) && count == |hits|
      && (count > 0 ==> used < capacity && buffer[used] == 0)
    }

    constructor (capacity: nat, scratchCap: nat)
      requires scratchCap > 0
      ensures Valid() && hits == [] && !overflow && this.capacity == capacity && this.scratchCap == scratchCap
      ensures fresh(buffer) && fresh(scratch)
    {
      this.capacity, this.scratchCap := capacity, scratchCap;
      buffer, scratch := new byte[capacity], new byte[scratchCap];
      used, count, overflow, hits := 0, 0, false, [];
    }

    /** Escapes the name into the scratch buffer and formats the record. */
    method Format(name: seq<byte>, position: nat) returns (ok: bool, entry: seq<byte>)
      requires Valid() && 0 !in name
      modifies scratch
      ensures Valid()
      ensures ok <==> |Escape(name)| < scratchCap
      ensures ok ==> entry == RecordText(count == 0, Hit(name, position))
    {
      var status, written := JsonEscape(Some(name), scratch, scratchCap);
      ok, entry := status == Ok, [];
      if ok {
        NoNul(name);
        assert scratch[..] == Escape(name) + [0] + scratch[written + 1..];
        CStringStops(Escape(name), scratch[written + 1..]);
        var escaped := CString(scratch[..]);
        entry := (if count > 0 then [COMMA] else []) +
          (OPENING + (escaped + [QUOTE] + (MIDDLE + (Decimal(position) + [CLOSING]))));
      } else {
        WrittenExact(name, scratchCap, status, scratch[..written]);
      }
    }

    /** `on_match`: adds one record, or sets the overflow flag and leaves the list alone. */
    method OnMatch(name: seq<byte>, position: nat)
      requires Valid() && 0 !in name
      modifies this, buffer, scratch
      ensures Valid()
      ensures var h := Hit(name, position);
        if Fits(scratchCap, capacity, old(hits), h) then hits == old(hits) + [h] && overflow == old(overflow)
        else hits == old(hits) && overflow && used == old(used)
    {
      ghost var h := Hit(name, position);
      var ok, entry := Format(name, position);
      if !ok {
        overflow := true;
        return;
      }
      if |entry| >= ENTRY_SIZE {
        overflow := true;
        return;
      }
      if used + |entry| + 1 >= capacity {
        overflow := true;
        return;
      }
      Store(entry, h);
    }

    /** Copies a finished record behind the list. */
    method Store(entry: seq<byte>, ghost h: Hit)
      requires Valid() && entry == RecordText(hits == [], h) && used + |entry| + 1 < capacity
      modifies this, buffer
      ensures Valid() && hits == old(hits) + [h] && overflow == old(overflow)
    {
      ListSnoc(true, hits, h);
      CopyInto(buffer, used, entry);
      assert buffer[..used + |entry|] == ListText(true, hits) + entry;
      used, count, hits := used + |entry|, count + 1, hits + [h];
      buffer[used] := 0;
    }

    method OnReport(ghost start: seq<Hit>, reports: seq<Hit>, i: nat)
      requires Valid() && i < |reports| && NulFree(reports, i)
      requires hits == Kept(scratchCap, capacity, start, reports[..i])
      modifies this, buffer, scratch
      ensures Valid() && hits == Kept(scratchCap, capacity, start, reports[..i + 1])
      ensures (|hits| == |old(hits)| + 1 && overflow == old(overflow)) || (|hits| == |old(hits)| && overflow)
    {
      KeptNext(scratchCap, capacity, start, reports, i);
      OnMatch(reports[i].name, reports[i].position);
    }

    /** The callback over all reports of one scan. */
    method OnMatches(reports: seq<Hit>)
      requires Valid() && forall i: nat :: i < |reports| ==> NulFree(reports, i)
      modifies this, buffer, scratch
      ensures Valid() && hits == Kept(scratchCap, capacity, old(hits), reports)
      ensures overflow <==> old(overflow) || |hits| < |old(hits)| + |reports|
      ensures !overflow ==> hits == old(hits) + reports
    {
      ghost var start := hits;
      ReportEach(start, reports);
      KeptBound(scratchCap, capacity, start, reports);
    }

    method ReportEach(ghost start: seq<Hit>, reports: seq<Hit>)
      requires Valid() && hits == start && forall i: nat :: i < |reports| ==> NulFree(reports, i)
      modifies this, buffer, scratch
      ensures Valid() && hits == Kept(scratchCap, capacity, start, reports)
      ensures |hits| <= |start| + |reports| && (overflow <==> old(overflow) || |hits| < |start| + |reports|)
    {
      for i := 0 to |reports|
        invariant Valid() && hits == Kept(scratchCap, capacity, start, reports[..i])
        invariant |hits| <= |start| + i && (overflow <==> old(overflow) || |hits| < |start| + i)
      {
        OnReport(start, reports, i);
      }
      assert reports[..|reports|] == reports;
    }
  }

  /** With the overflow flag clear, the list reads back as exactly one record per hit. */
  lemma UnlessOverflow(scratchCap: nat, capacity: nat, reports: seq<Hit>)
    requires |Kept(scratchCap, capacity, [], reports)| == |reports|
    ensures ReadList(ListText(true, Kept(scratchCap, capacity, [], reports))) == Some(reports)
  {
    KeptBound(scratchCap, capacity, [], reports);
    assert [] + reports == reports;
    ListBack(reports);
  }
}
