/** What replay returns after any history of log operations. */
module WalRuns {
  import opened Bytes
  import opened WalFormat
  import opened Wal

  /** The log after a history, starting from a new file. */
  ghost function Run(c: Suite, h: seq<Op>): Log {
    if h == [] then Log([], [], false, 0) else Apply(c, Run(c, h[..|h| - 1]), h[|h| - 1])
  }

  // ------------------------------------------------------------------ sequence numbers

  ghost predicate Before(rs: seq<Record>, i: nat, j: nat)
    requires i < j < |rs|
  {
    rs[i].lsn < rs[j].lsn
  }

  ghost predicate StrictlyIncreasing(rs: seq<Record>) {
    forall i: nat, j: nat :: i < j < |rs| ==> Before(rs, i, j)
  }

  ghost predicate Below(rs: seq<Record>, top: int) {
    forall i :: 0 <= i < |rs| ==> rs[i].lsn <= top
  }

  lemma IncreasingSnoc(rs: seq<Record>, top: int, r: Record)
    requires StrictlyIncreasing(rs) && Below(rs, top) && top < r.lsn
    ensures StrictlyIncreasing(rs + [r]) && Below(rs + [r], r.lsn)
  {
    forall i: nat, j: nat | i < j < |rs + [r]| ensures Before(rs + [r], i, j) {
      assert j < |rs| ==> Before(rs, i, j);
    }
  }

  lemma IncreasingPrefix(p: seq<Record>, rs: seq<Record>, top: int)
    requires StrictlyIncreasing(rs) && Below(rs, top) && p <= rs
    ensures StrictlyIncreasing(p) && Below(p, top)
  {
    forall i: nat, j: nat | i < j < |p| ensures Before(p, i, j) {
      assert Before(rs, i, j);
    }
  }

  /** Adding a record extends what is readable by that record, or by nothing. */
  lemma {:induction false} ReadableSnoc(c: Suite, xs: seq<Sealed>, x: Sealed)
    ensures Readable(c, xs + [x]) == Readable(c, xs) || Readable(c, xs + [x]) == Readable(c, xs) + [x]
    ensures |Readable(c, xs)| == |xs| && Fits(c, x.record) ==> Readable(c, xs + [x]) == xs + [x]
    ensures Readable(c, xs) <= xs
    decreases |xs|
  {
    if xs != [] {
      assert (xs + [x])[1..] == xs[1..] + [x];
      ReadableSnoc(c, xs[1..], x);
    } else {
      assert Readable(c, [x]) == if Fits(c, x.record) then [x] else [];
      assert xs + [x] == [x];
    }
  }

  lemma {:induction false} ReadableShort(c: Suite, xs: seq<Sealed>)
    ensures |Readable(c, xs)| <= |xs|
    ensures |Readable(c, xs)| == |xs| ==> Readable(c, xs) == xs
    decreases |xs|
  {
    if xs != [] {
      ReadableShort(c, xs[1..]);
    }
  }

  lemma {:induction false} ReadablePrefix(c: Suite, xs: seq<Sealed>, ys: seq<Sealed>)
    ensures Readable(c, xs) <= Readable(c, xs + ys)
    decreases |xs|
  {
    if xs != [] {
      assert (xs + ys)[1..] == xs[1..] + ys;
      ReadablePrefix(c, xs[1..], ys);
    }
  }

  /** Everything readable, on disk or held back, is in order and no later than the counter. */
  ghost predicate Counted(c: Suite, l: Log) {
    var rs := Records(Readable(c, l.durable + l.pending));
    StrictlyIncreasing(rs) && Below(rs, l.lsn) && (!l.active ==> l.pending == [])
  }

  lemma CountedDurable(c: Suite, l: Log)
    requires Counted(c, l)
    ensures StrictlyIncreasing(Records(Readable(c, l.durable))) && Below(Records(Readable(c, l.durable)), l.lsn)
  {
    ReadablePrefix(c, l.durable, l.pending);
    IncreasingPrefix(Records(Readable(c, l.durable)), Records(Readable(c, l.durable + l.pending)), l.lsn);
  }

  /** The record most lately numbered is the latest readable, wherever it goes. */
  lemma CountedAppend(c: Suite, l: Log, x: Sealed)
    requires Counted(c, l) && x.record.lsn == l.lsn + 1
    ensures Counted(c, l.(lsn := l.lsn + 1))
    ensures l.active ==> Counted(c, l.(lsn := l.lsn + 1, pending := l.pending + [x]))
    ensures !l.active ==> Counted(c, l.(lsn := l.lsn + 1, durable := l.durable + [x]))
  {
    var all := l.durable + l.pending;
    ReadableSnoc(c, all, x);
    IncreasingSnoc(Records(Readable(c, all)), l.lsn, x.record);
    assert Records(Readable(c, all) + [x]) == Records(Readable(c, all)) + [x.record];
    assert l.durable + (l.pending + [x]) == all + [x];
    assert !l.active ==> (l.durable + [x]) + l.pending == all + [x];
  }

  lemma CountedStep(c: Suite, l: Log, o: Op)
    requires Counted(c, l)
    ensures Counted(c, Apply(c, l, o))
  {
    match o
    case Append(_, _, _) =>
      CountedAppend(c, l, Next(l, o));
    case Commit =>
      assert (l.durable + l.pending) + [] == l.durable + l.pending;
    case _ =>
      CountedDurable(c, l);
      assert l.durable + [] == l.durable;
  }

  lemma {:induction false} RunCounted(c: Suite, h: seq<Op>)
    ensures Counted(c, Run(c, h))
    decreases |h|
  {
    if h != [] {
      RunCounted(c, h[..|h| - 1]);
      CountedStep(c, Run(c, h[..|h| - 1]), h[|h| - 1]);
    }
  }

  /** After any history whatever, replayed sequence numbers strictly increase. */
  lemma ReplayIncreasing(c: Suite, h: seq<Op>)
    ensures StrictlyIncreasing(Records(Readable(c, Run(c, h).durable)))
  {
    RunCounted(c, h);
    CountedDurable(c, Run(c, h));
  }

  // ------------------------------------------------------------------ which records survive

  /** A transaction is open just before operation `i`. */
  ghost predicate InTransaction(h: seq<Op>, i: nat)
    requires i <= |h|
  {
    i > 0 && if h[i - 1].Append? then InTransaction(h, i - 1) else h[i - 1].Begin?
  }

  /** The next operation from `j` on that is not an append is a commit. */
  ghost predicate CommitsNext(h: seq<Op>, j: nat)
    requires j <= |h|
    decreases |h| - j
  {
    j < |h| && if h[j].Append? then CommitsNext(h, j + 1) else h[j].Commit?
  }

  /** From `j` on there are only appends. */
  ghost predicate OnlyAppends(h: seq<Op>, j: nat)
    requires j <= |h|
  {
    forall i :: j <= i < |h| ==> h[i].Append?
  }

  /** The record that operation `i` builds. */
  ghost function Built(c: Suite, h: seq<Op>, i: nat): (x: Sealed)
    requires i < |h| && h[i].Append?
    ensures (x.nonce, x.record.op, x.record.data) == (h[i].nonce, h[i].op, h[i].data)
  {
    Next(Run(c, h[..i]), h[i])
  }

  /** Operation `i` appends a record whose length can be written down. */
  ghost predicate Appends(c: Suite, h: seq<Op>, i: nat)
    requires i < |h|
  {
    h[i].Append? && Packable(c, Built(c, h, i))
  }

  /** Appended outside a transaction, or inside one that was committed. */
  ghost predicate Survives(c: Suite, h: seq<Op>, i: nat)
    requires i < |h|
  {
    Appends(c, h, i) && (InTransaction(h, i) ==> CommitsNext(h, i + 1))
  }

  /** Appended inside the transaction that is still open. */
  ghost predicate Waiting(c: Suite, h: seq<Op>, i: nat)
    requires i < |h|
  {
    Appends(c, h, i) && InTransaction(h, i) && OnlyAppends(h, i + 1)
  }

  /** The surviving records among those of the first `n` operations, in order. */
  ghost function Survivors(c: Suite, h: seq<Op>, n: nat): seq<Sealed>
    requires n <= |h|
  {
    if n == 0 then []
    else Survivors(c, h, n - 1) + if Survives(c, h, n - 1) then [Built(c, h, n - 1)] else []
  }

  ghost function Held(c: Suite, h: seq<Op>, n: nat): seq<Sealed>
    requires n <= |h|
  {
    if n == 0 then []
    else Held(c, h, n - 1) + if Waiting(c, h, n - 1) then [Built(c, h, n - 1)] else []
  }

  // ---- how one more operation changes these

  lemma {:induction false} InTransactionGrows(h: seq<Op>, o: Op, i: nat)
    requires i <= |h|
    ensures InTransaction(h + [o], i) == InTransaction(h, i)
  {
    if i > 0 {
      InTransactionGrows(h, o, i - 1);
    }
  }

  lemma {:induction false} CommitsNextGrows(h: seq<Op>, o: Op, j: nat)
    requires j <= |h|
    ensures CommitsNext(h + [o], j) <==> CommitsNext(h, j) || (OnlyAppends(h, j) && o.Commit?)
    decreases |h| - j
  {
    var g := h + [o];
    if j < |h| {
      CommitsNextGrows(h, o, j + 1);
      assert g[j] == h[j];
      assert OnlyAppends(h, j) <==> h[j].Append? && OnlyAppends(h, j + 1);
    } else {
      assert g[j] == o;
      assert CommitsNext(g, j) ==> o.Commit? || CommitsNext(g, j + 1);
    }
  }

  lemma OnlyAppendsGrows(h: seq<Op>, o: Op, j: nat)
    requires j <= |h|
    ensures OnlyAppends(h + [o], j) <==> OnlyAppends(h, j) && o.Append?
  {
    var g := h + [o];
    assert g[|h|] == o;
    assert forall i :: 0 <= i < |h| ==> g[i] == h[i];
  }

  lemma NotBoth(h: seq<Op>, j: nat)
    requires j <= |h| && OnlyAppends(h, j)
    ensures !CommitsNext(h, j)
    decreases |h| - j
  {
    if j < |h| {
      NotBoth(h, j + 1);
    }
  }

  lemma AppendsStays(c: Suite, h: seq<Op>, o: Op, i: nat)
    requires i < |h|
    ensures Appends(c, h + [o], i) == Appends(c, h, i)
    ensures h[i].Append? ==> Built(c, h + [o], i) == Built(c, h, i)
  {
    assert (h + [o])[i] == h[i] && (h + [o])[..i] == h[..i];
  }

  /** Nothing that survives comes after something still waiting. */
  lemma {:induction false} HeldLast(c: Suite, h: seq<Op>, n: nat)
    requires n < |h| && Survives(c, h, n)
    ensures Held(c, h, n) == []
  {
    forall i: nat | i < n ensures !Waiting(c, h, i) {
      if Waiting(c, h, i) {
        StaysOpen(c, h, i, n);
        assert OnlyAppends(h, n + 1);
        NotBoth(h, n + 1);
      }
    }
    HeldNone(c, h, n);
  }

  lemma {:induction false} StaysOpen(c: Suite, h: seq<Op>, i: nat, n: nat)
    requires i < n < |h| && Waiting(c, h, i)
    ensures InTransaction(h, n)
  {
    if i + 1 < n {
      StaysOpen(c, h, i, n - 1);
    }
  }

  lemma {:induction false} HeldNone(c: Suite, h: seq<Op>, n: nat)
    requires n <= |h| && forall i: nat :: i < n ==> !Waiting(c, h, i)
    ensures Held(c, h, n) == []
  {
    if n > 0 {
      HeldNone(c, h, n - 1);
    }
  }

  /** A commit adds exactly what was waiting; no other operation changes who survives. */
  lemma {:induction false} SurvivorsGrow(c: Suite, h: seq<Op>, o: Op, n: nat)
    requires n <= |h|
    ensures Survivors(c, h + [o], n) == Survivors(c, h, n) + if o.Commit? then Held(c, h, n) else []
  {
    if n > 0 {
      var i := n - 1;
      SurvivorsGrow(c, h, o, i);
      InTransactionGrows(h, o, i);
      CommitsNextGrows(h, o, n);
      AppendsStays(c, h, o, i);
      if Survives(c, h, i) {
        HeldLast(c, h, i);
        if OnlyAppends(h, n) {
          NotBoth(h, n);
        }
      }
    }
  }

  lemma {:induction false} HeldGrow(c: Suite, h: seq<Op>, o: Op, n: nat)
    requires n <= |h|
    ensures Held(c, h + [o], n) == if o.Append? then Held(c, h, n) else []
  {
    if n > 0 {
      HeldGrow(c, h, o, n - 1);
      InTransactionGrows(h, o, n - 1);
      OnlyAppendsGrows(h, o, n);
      AppendsStays(c, h, o, n - 1);
    }
  }

  /** Outside a transaction nothing is waiting. */
  lemma {:induction false} HeldOnlyInside(c: Suite, h: seq<Op>)
    requires !InTransaction(h, |h|)
    ensures Held(c, h, |h|) == []
  {
    forall i: nat | i < |h| ensures !Waiting(c, h, i) {
      if Waiting(c, h, i) {
        if i + 1 < |h| {
          StaysOpen(c, h, i, |h| - 1);
        }
      }
    }
    HeldNone(c, h, |h|);
  }

  // ------------------------------------------------------------------ the run theorem

  /** The log after a history is what the history says survives. */
  ghost predicate Agrees(c: Suite, l: Log, h: seq<Op>) {
    && l.active == InTransaction(h, |h|)
    && l.durable == Survivors(c, h, |h|)
    && l.pending == Held(c, h, |h|)
  }

  /** The last operation appends a record: it waits in an open transaction and survives outside. */
  lemma LastAppend(c: Suite, h: seq<Op>, o: Op)
    requires o.Append?
    ensures var g := h + [o];
      && InTransaction(g, |g|) == InTransaction(h, |h|)
      && Built(c, g, |h|) == Next(Run(c, h), o)
      && (Survives(c, g, |h|) <==> Packable(c, Next(Run(c, h), o)) && !InTransaction(h, |h|))
      && (Waiting(c, g, |h|) <==> Packable(c, Next(Run(c, h), o)) && InTransaction(h, |h|))
  {
    var g := h + [o];
    InTransactionGrows(h, o, |h|);
    assert g[|h|] == o && g[..|h|] == h;
  }

  lemma AgreesAppend(c: Suite, h: seq<Op>, o: Op)
    requires Agrees(c, Run(c, h), h) && o.Append?
    ensures Agrees(c, Apply(c, Run(c, h), o), h + [o])
  {
    SurvivorsGrow(c, h, o, |h|);
    HeldGrow(c, h, o, |h|);
    LastAppend(c, h, o);
  }

  lemma AgreesControl(c: Suite, h: seq<Op>, o: Op)
    requires Agrees(c, Run(c, h), h) && !o.Append?
    ensures Agrees(c, Apply(c, Run(c, h), o), h + [o])
  {
    var g := h + [o];
    SurvivorsGrow(c, h, o, |h|);
    HeldGrow(c, h, o, |h|);
    assert g[|h|] == o && InTransaction(g, |g|) == o.Begin?;
    assert !Survives(c, g, |h|) && !Waiting(c, g, |h|);
    if !InTransaction(h, |h|) {
      HeldOnlyInside(c, h);
    }
  }

  /**
   * After any history of begins, appends, commits, rollbacks and restarts, the log on disk holds exactly
   * the records appended directly or in committed transactions, in order.
   */
  lemma {:induction false} RunAgrees(c: Suite, h: seq<Op>)
    ensures Agrees(c, Run(c, h), h)
    decreases |h|
  {
    if h != [] {
      var g, o := h[..|h| - 1], h[|h| - 1];
      RunAgrees(c, g);
      assert h == g + [o];
      if o.Append? {
        AgreesAppend(c, g, o);
      } else {
        AgreesControl(c, g, o);
      }
    }
  }

  /** Every surviving record is small enough to be read back. */
  ghost predicate SurvivorsFit(c: Suite, h: seq<Op>) {
    forall i: nat :: i < |h| && Survives(c, h, i) ==> Fits(c, Built(c, h, i).record)
  }

  lemma {:induction false} SurvivorsAre(c: Suite, h: seq<Op>, n: nat, x: Sealed)
    requires n <= |h|
    ensures x in Survivors(c, h, n) <==> exists i: nat :: i < n && Survives(c, h, i) && x == Built(c, h, i)
  {
    if n > 0 {
      SurvivorsAre(c, h, n - 1, x);
    }
  }

  /** After any history whatever, replay returns exactly what survives if and only if all of that is small enough. */
  lemma RunReplays(c: Suite, h: seq<Op>)
    ensures var xs := Run(c, h).durable;
      && xs == Survivors(c, h, |h|)
      && (Records(Readable(c, xs)) == Records(xs) <==> SurvivorsFit(c, h))
  {
    RunAgrees(c, h);
    var xs := Survivors(c, h, |h|);
    AllReadExact(c, xs);
    ReadableShort(c, xs);
    if Readable(c, xs) == xs {
      forall i: nat | i < |h| && Survives(c, h, i) ensures Fits(c, Built(c, h, i).record) {
        SurvivorsAre(c, h, |h|, Built(c, h, i));
      }
    }
    if SurvivorsFit(c, h) {
      forall x | x in xs ensures Fits(c, x.record) {
        SurvivorsAre(c, h, |h|, x);
      }
    }
  }

  // ------------------------------------------------------------------ oversized records and torn files

  /** Replay returns everything on disk exactly when every record on disk fits. */
  lemma {:induction false} AllReadExact(c: Suite, xs: seq<Sealed>)
    ensures Readable(c, xs) == xs <==> forall x :: x in xs ==> Fits(c, x.record)
    decreases |xs|
  {
    if xs != [] {
      AllReadExact(c, xs[1..]);
      assert forall x :: x in xs <==> x == xs[0] || x in xs[1..];
      ReadableShort(c, xs[1..]);
    }
  }

  /** A file cut anywhere past its header replays exactly the frames that are still whole. */
  lemma TornFile(c: Suite, salt: seq<byte>, xs: seq<Sealed>, k: nat, n: nat)
    requires Lawful(c) && |salt| == 16 && AllPackable(c, xs) && k <= |xs| && CutAfter(c, salt, xs, k, n)
    ensures var disk := FileHeader(salt) + Frames(c, salt, xs);
      && HasHeader(disk[..HEADER_LEN + n])
      && Replayed(c, disk[..HEADER_LEN + n]) == Records(Readable(c, xs[..k]))
      && Replayed(c, disk) == Records(Readable(c, xs))
  {
    var disk := FileHeader(salt) + Frames(c, salt, xs);
    var torn := disk[..HEADER_LEN + n];
    assert disk[..4] == MAGIC && disk[4..HEADER_LEN] == salt && disk[HEADER_LEN..] == Frames(c, salt, xs);
    assert torn[..4] == MAGIC && torn[4..HEADER_LEN] == salt;
    assert torn[HEADER_LEN..] == Frames(c, salt, xs)[..n];
    ParseTorn(c, salt, xs, k, n);
    ParseFrames(c, salt, xs);
  }

  /**
   * Why restarts must find the file untorn: after a torn tail, a record written later is lost as
   * long as the bytes missing from the torn frame are more than the new frame brings.
   */
  lemma TornTailSwallows(c: Suite, salt: seq<byte>, x: Sealed, torn: seq<byte>, y: Sealed)
    requires Lawful(c) && Packable(c, x) && Packable(c, y)
    requires torn <= Frame(c, salt, x) && 4 <= |torn|
    requires |torn| + |Frame(c, salt, y)| < |Frame(c, salt, x)|
    ensures Parse(c, salt, torn + Frame(c, salt, y)) == []
  {
    var b := torn + Frame(c, salt, y);
    Be32Back(Size(c, x.record));
    assert b[..4] == Frame(c, salt, x)[..4] == Be32(Size(c, x.record));
    ParseNone(c, salt, b);
  }
}
