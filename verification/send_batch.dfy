/** The distribution loop run by the send button: for every "minted" entry of
    the log as it stood when the click happened, and for every recipient in
    turn, one transfer is attempted and exactly one entry is logged: "sent"
    with the signature, or "error" with the exception's message. The handler
    sits inside the inner loop, so no failure stops the fan-out. */
module SendBatch {
  import opened Wrappers
  import opened AuditLog
  import opened Issuance
  import opened SeqFacts

  /** The entry logged for one attempt: the try branch or the catch branch. */
  function Transfer(mint: Address, to: string, outcome: Result<string, string>): (e: LogEntry)
    ensures !e.Minted? && e.mint == mint && e.to == to
    ensures e.Sent? <==> outcome.Success?
    ensures outcome.Success? ==> e.tx == outcome.value
    ensures outcome.Failure? ==> e.error == outcome.error
  {
    match outcome
    case Success(tx) => Sent(mint, to, tx)
    case Failure(message) => Error(mint, to, message)
  }

  /** The inner loop: recipients r .. end for one mint; the transfer to
      `recipients[r]` is call number base + r. */
  function SendTo(mint: Address, recipients: seq<string>, r: nat, svc: Service, base: nat,
                  log: seq<LogEntry>): (out: seq<LogEntry>)
    requires r <= |recipients|
    ensures Extends(log, out)
    ensures |out| == |log| + (|recipients| - r)
    decreases |recipients| - r
  {
    if r == |recipients| then log
    else
      var to := recipients[r];
      SendTo(mint, recipients, r + 1, svc, base, Append(log, Transfer(mint, to, svc.send(mint, to, base + r))))
  }

  /** The outer loop over the entries still to visit of the captured log;
      `base` transfers were requested before it. */
  function SendFrom(pending: seq<LogEntry>, recipients: seq<string>, svc: Service, base: nat,
                    log: seq<LogEntry>): seq<LogEntry>
    decreases |pending|
  {
    if |pending| == 0 then log
    else
      var rest := pending[1..];
      if Status(pending[0]) != "minted" then SendFrom(rest, recipients, svc, base, log)
      else
        SendFrom(rest, recipients, svc, base + |recipients|, SendTo(pending[0].mint, recipients, 0, svc, base, log))
  }

  /** `handleSend`: the fan-out over the log as captured at the click,
      appended to that same log. */
  function SendAll(log: seq<LogEntry>, recipients: seq<string>, svc: Service): (out: seq<LogEntry>)
    ensures Extends(log, out)
    ensures forall k :: |log| <= k < |out| ==> !out[k].Minted? && out[k].mint in MintAddresses(log)
  {
    SendFromIsFanout(log, recipients, svc, 0, log);
    FanoutMints(MintedOf(log), recipients, svc, 0);
    MintedAddresses(log);
    SendFrom(log, recipients, svc, 0, log)
  }

  /** Reference definition of the fan-out: for each minted entry in order,
      one row of attempts, one per recipient in order; transfer requests are
      numbered consecutively from `base`. */
  function Fanout(minted: seq<LogEntry>, recipients: seq<string>, svc: Service, base: nat): seq<LogEntry>
    decreases |minted|
  {
    if |minted| == 0 then []
    else Row(minted[0].mint, recipients, svc, base)
         + Fanout(minted[1..], recipients, svc, base + |recipients|)
  }

  /** The attempts for one mint: the q-th is transfer request base + q. */
  function Row(mint: Address, recipients: seq<string>, svc: Service, base: nat): (row: seq<LogEntry>)
    ensures |row| == |recipients|
  {
    seq(|recipients|, q requires 0 <= q < |recipients| => Transfer(mint, recipients[q], svc.send(mint, recipients[q], base + q)))
  }

  /** The inner loop appends exactly the remaining part of the row. */
  lemma {:induction false} SendToIsRow(mint: Address, recipients: seq<string>, r: nat, svc: Service,
                                       base: nat, log: seq<LogEntry>)
    requires r <= |recipients|
    ensures SendTo(mint, recipients, r, svc, base, log) == log + Row(mint, recipients, svc, base)[r..]
    decreases |recipients| - r
  {
    var row := Row(mint, recipients, svc, base);
    if r == |recipients| {
      assert log + row[r..] == log;
    } else {
      var e := Transfer(mint, recipients[r], svc.send(mint, recipients[r], base + r));
      SendToIsRow(mint, recipients, r + 1, svc, base, Append(log, e));
      assert row[r..] == [e] + row[r + 1..];
      assert Append(log, e) + row[r + 1..] == log + row[r..];
    }
  }

  /** The loop over the captured log produces exactly the reference fan-out
      of its "minted" entries. */
  lemma {:induction false} SendFromIsFanout(pending: seq<LogEntry>, recipients: seq<string>, svc: Service,
                                            base: nat, log: seq<LogEntry>)
    ensures SendFrom(pending, recipients, svc, base, log) == log + Fanout(MintedOf(pending), recipients, svc, base)
    decreases |pending|
  {
    var minted := MintedOf(pending);
    if |pending| == 0 {
      assert log + [] == log;
    } else if Status(pending[0]) != "minted" {
      assert minted == MintedOf(pending[1..]);
      assert SendFrom(pending, recipients, svc, base, log) == SendFrom(pending[1..], recipients, svc, base, log);
      SendFromIsFanout(pending[1..], recipients, svc, base, log);
    } else {
      var row := Row(pending[0].mint, recipients, svc, base);
      var tail := Fanout(MintedOf(pending[1..]), recipients, svc, base + |recipients|);
      MintedStep(pending, recipients, svc, base, log);
      SendFromIsFanout(pending[1..], recipients, svc, base + |recipients|, log + row);
      FanoutOfMinted(pending, recipients, svc, base);
      AppendAssoc(log, row, tail);
      assert SendFrom(pending, recipients, svc, base, log) == log + (row + tail);
    }
  }

  /** Visiting a "minted" entry appends its row, then goes on with the rest. */
  lemma MintedStep(pending: seq<LogEntry>, recipients: seq<string>, svc: Service, base: nat, log: seq<LogEntry>)
    requires |pending| > 0 && pending[0].Minted?
    ensures SendFrom(pending, recipients, svc, base, log)
      == SendFrom(pending[1..], recipients, svc, base + |recipients|, log + Row(pending[0].mint, recipients, svc, base))
  {
    var mint := pending[0].mint;
    var row := Row(mint, recipients, svc, base);
    SendToIsRow(mint, recipients, 0, svc, base, log);
    assert row[0..] == row;
    assert Status(pending[0]) == "minted";
  }

  /** A leading "minted" entry contributes its row in front of the rest. */
  lemma FanoutOfMinted(pending: seq<LogEntry>, recipients: seq<string>, svc: Service, base: nat)
    requires |pending| > 0 && pending[0].Minted?
    ensures Fanout(MintedOf(pending), recipients, svc, base)
      == Row(pending[0].mint, recipients, svc, base) + Fanout(MintedOf(pending[1..]), recipients, svc, base + |recipients|)
  {
    assert Status(pending[0]) == "minted";
    var minted := MintedOf(pending);
    assert minted == [pending[0]] + MintedOf(pending[1..]);
    assert minted[0] == pending[0] && minted[1..] == MintedOf(pending[1..]);
  }

  /** The fan-out has one attempt per (mint, recipient) pair. */
  lemma {:induction false} FanoutLength(minted: seq<LogEntry>, recipients: seq<string>, svc: Service, base: nat)
    ensures |Fanout(minted, recipients, svc, base)| == |minted| * |recipients|
    decreases |minted|
  {
    if |minted| > 0 {
      FanoutLength(minted[1..], recipients, svc, base + |recipients|);
      MulSucc(|minted| - 1, |recipients|);
    }
  }

  lemma {:induction false} RowStartIsProduct(m: nat, n: nat)
    ensures RowStart(m, n) == m * n
    decreases m
  {
    if m > 0 {
      RowStartIsProduct(m - 1, n);
      MulSucc(m - 1, n);
    }
  }

  /** The rows of the fan-out, one per mint, request numbers running on. */
  function Rows(minted: seq<LogEntry>, recipients: seq<string>, svc: Service, base: nat): (rows: seq<seq<LogEntry>>)
    ensures |rows| == |minted|
    decreases |minted|
  {
    if |minted| == 0 then []
    else [Row(minted[0].mint, recipients, svc, base)] + Rows(minted[1..], recipients, svc, base + |recipients|)
  }

  lemma {:induction false} FanoutIsConcat(minted: seq<LogEntry>, recipients: seq<string>, svc: Service, base: nat)
    ensures Fanout(minted, recipients, svc, base) == Concat(Rows(minted, recipients, svc, base))
    decreases |minted|
  {
    if |minted| > 0 {
      var rows := Rows(minted, recipients, svc, base);
      FanoutIsConcat(minted[1..], recipients, svc, base + |recipients|);
      assert rows[0] == Row(minted[0].mint, recipients, svc, base);
      assert rows[1..] == Rows(minted[1..], recipients, svc, base + |recipients|);
    }
  }

  /** Row m is the m-th mint's, its requests numbered from base + RowStart(m, |recipients|). */
  lemma {:induction false} RowsAt(minted: seq<LogEntry>, recipients: seq<string>, svc: Service, base: nat, m: nat)
    requires m < |minted|
    ensures Rows(minted, recipients, svc, base)[m] == Row(minted[m].mint, recipients, svc, base + RowStart(m, |recipients|))
    decreases m
  {
    var rows := Rows(minted, recipients, svc, base);
    if m > 0 {
      RowsAt(minted[1..], recipients, svc, base + |recipients|, m - 1);
      assert rows[m] == rows[1..][m - 1];
      assert minted[1..][m - 1] == minted[m];
    }
  }

  /** Every row has one attempt per recipient. */
  lemma RowsLength(minted: seq<LogEntry>, recipients: seq<string>, svc: Service, base: nat)
    ensures forall i :: 0 <= i < |minted| ==> |Rows(minted, recipients, svc, base)[i]| == |recipients|
  {
    forall i | 0 <= i < |minted|
      ensures |Rows(minted, recipients, svc, base)[i]| == |recipients|
    {
      RowsAt(minted, recipients, svc, base, i);
    }
  }

  /** The attempt for the m-th mint and the q-th recipient sits at
      m*|recipients| + q and is transfer request base + m*|recipients| + q. */
  lemma FanoutAt(minted: seq<LogEntry>, recipients: seq<string>, svc: Service, base: nat, m: nat, q: nat)
    requires m < |minted| && q < |recipients|
    ensures m * |recipients| + q < |Fanout(minted, recipients, svc, base)|
    ensures Fanout(minted, recipients, svc, base)[m * |recipients| + q] ==
      Transfer(minted[m].mint, recipients[q], svc.send(minted[m].mint, recipients[q], base + m * |recipients| + q))
  {
    var rows := Rows(minted, recipients, svc, base);
    FanoutIsConcat(minted, recipients, svc, base);
    RowsLength(minted, recipients, svc, base);
    ConcatAt(rows, |recipients|, m, q);
    RowsAt(minted, recipients, svc, base, m);
    RowStartIsProduct(m, |recipients|);
    var start := base + m * |recipients|;
    assert Row(minted[m].mint, recipients, svc, start)[q] ==
      Transfer(minted[m].mint, recipients[q], svc.send(minted[m].mint, recipients[q], start + q));
  }

  /** Every attempt of the fan-out is a transfer of one of the given mints. */
  lemma {:induction false} FanoutMints(minted: seq<LogEntry>, recipients: seq<string>, svc: Service, base: nat)
    requires forall m :: 0 <= m < |minted| ==> minted[m].Minted?
    ensures forall k :: 0 <= k < |Fanout(minted, recipients, svc, base)| ==>
      && !Fanout(minted, recipients, svc, base)[k].Minted?
      && Fanout(minted, recipients, svc, base)[k].mint in MintAddresses(minted)
    decreases |minted|
  {
    if |minted| > 0 {
      var row := Row(minted[0].mint, recipients, svc, base);
      var rest := Fanout(minted[1..], recipients, svc, base + |recipients|);
      FanoutMints(minted[1..], recipients, svc, base + |recipients|);
      assert minted[0].mint in MintAddresses(minted);
      forall k | 0 <= k < |rest|
        ensures !rest[k].Minted? && rest[k].mint in MintAddresses(minted)
      {
        assert rest[k].mint in MintAddresses(minted[1..]);
        var i :| 0 <= i < |minted[1..]| && minted[1..][i].Minted? && minted[1..][i].mint == rest[k].mint;
        assert minted[i + 1] == minted[1..][i];
      }
      forall k | 0 <= k < |row|
        ensures !row[k].Minted? && row[k].mint in MintAddresses(minted)
      {
        assert row[k].mint == minted[0].mint;
      }
      assert Fanout(minted, recipients, svc, base) == row + rest;
      forall k | 0 <= k < |row + rest|
        ensures !(row + rest)[k].Minted? && (row + rest)[k].mint in MintAddresses(minted)
      {
        if k >= |row| {
          assert (row + rest)[k] == rest[k - |row|];
        }
      }
    }
  }

  /** Transfers never add "minted" entries, so a second send visits the same
      mints again. */
  lemma SendKeepsMinted(log: seq<LogEntry>, recipients: seq<string>, svc: Service)
    ensures MintedOf(SendAll(log, recipients, svc)) == MintedOf(log)
  {
    var out := SendAll(log, recipients, svc);
    var added := out[|log|..];
    assert out == log + added;
    MintedOfAppend(log, added);
    NoMinted(added);
  }

  lemma {:induction false} NoMinted(s: seq<LogEntry>)
    requires forall k :: 0 <= k < |s| ==> !s[k].Minted?
    ensures MintedOf(s) == []
    decreases |s|
  {
    if |s| > 0 {
      NoMinted(s[1..]);
    }
  }

  /** Transfers only refer to tokens the captured log records as minted, so
      sending keeps a grounded log grounded. */
  lemma SendKeepsGrounded(log: seq<LogEntry>, recipients: seq<string>, svc: Service)
    requires Grounded(log)
    ensures Grounded(SendAll(log, recipients, svc))
  {
    ExtendGrounded(log, SendAll(log, recipients, svc));
  }

  /** A failing transfer never cuts the fan-out short: when every transfer
      throws, every (mint, recipient) pair still gets its "error" entry. */
  lemma FailuresDoNotStopFanout(log: seq<LogEntry>, recipients: seq<string>, svc: Service)
    requires forall a, to, n :: svc.send(a, to, n).Failure?
    ensures var out := SendAll(log, recipients, svc);
      && |out| == |log| + |MintedOf(log)| * |recipients|
      && forall k :: |log| <= k < |out| ==> out[k].Error?
  {
    SendFromIsFanout(log, recipients, svc, 0, log);
    FanoutLength(MintedOf(log), recipients, svc, 0);
    FanoutAllFailed(MintedOf(log), recipients, svc, 0);
  }

  lemma {:induction false} FanoutAllFailed(minted: seq<LogEntry>, recipients: seq<string>, svc: Service, base: nat)
    requires forall a, to, n :: svc.send(a, to, n).Failure?
    ensures forall k :: 0 <= k < |Fanout(minted, recipients, svc, base)| ==> Fanout(minted, recipients, svc, base)[k].Error?
    decreases |minted|
  {
    if |minted| > 0 {
      FanoutAllFailed(minted[1..], recipients, svc, base + |recipients|);
    }
  }

  /** `handleSend` as written: `for (entry of log)` skipping entries whose
      status is not "minted", `for (to of recipients)` with a try/catch
      around each transfer, one log append per attempt. */
  method RunHandleSend(log: seq<LogEntry>, recipients: seq<string>, svc: Service)
    returns (updated: seq<LogEntry>)
    ensures updated == SendAll(log, recipients, svc)
    ensures |updated| == |log| + |MintedOf(log)| * |recipients|
  {
    updated := log;
    var requested: nat := 0;
    for k := 0 to |log|
      invariant SendFrom(log[k..], recipients, svc, requested, updated) == SendAll(log, recipients, svc)
    {
      var entry := log[k];
      assert log[k..][0] == entry && log[k..][1..] == log[k + 1..];
      if Status(entry) != "minted" {
        continue;
      }
      ghost var after := SendTo(entry.mint, recipients, 0, svc, requested, updated);
      for r := 0 to |recipients|
        invariant SendTo(entry.mint, recipients, r, svc, requested, updated) == after
      {
        var to := recipients[r];
        var sent := svc.send(entry.mint, to, requested + r);
        if sent.Success? {
          updated := Append(updated, Sent(entry.mint, to, sent.value));
        } else {
          updated := Append(updated, Error(entry.mint, to, sent.error));
        }
      }
      requested := requested + |recipients|;
    }
    assert log[|log|..] == [];
    SendFromIsFanout(log, recipients, svc, 0, log);
    FanoutLength(MintedOf(log), recipients, svc, 0);
  }
}
