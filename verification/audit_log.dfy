/** The session log: an ordered list of minting and transfer records that
    only ever grows by one entry at its end. */
module AuditLog {
  import opened JsValues

  /** A token's mint address, treated as an opaque base58 string. */
  type Address = string

  /** One log record. `Minted` carries the metadata's `name` property as read
      (it may be undefined); `Sent` and `Error` record one transfer attempt of
      `mint` to the recipient `to`. */
  datatype LogEntry =
    | Minted(name: JsValue, mint: Address)
    | Sent(mint: Address, to: string, tx: string)
    | Error(mint: Address, to: string, error: string)

  /** The `status` property of an entry. */
  function Status(e: LogEntry): (s: string)
    ensures s == "minted" <==> e.Minted?
    ensures s == "sent" <==> e.Sent?
    ensures s == "error" <==> e.Error?
  {
    match e
    case Minted(_, _) => "minted"
    case Sent(_, _, _) => "sent"
    case Error(_, _, _) => "error"
  }

  /** `setLog((log) => [...log, e])`: the only way the log ever changes. */
  function Append(log: seq<LogEntry>, e: LogEntry): (r: seq<LogEntry>)
    ensures |r| == |log| + 1
    ensures r[..|log|] == log
    ensures r[|log|] == e
  {
    log + [e]
  }

  /** `after` is `before` with zero or more entries added at the end. */
  predicate Extends(before: seq<LogEntry>, after: seq<LogEntry>) {
    |before| <= |after| && after[..|before|] == before
  }

  lemma ExtendsTransitive(a: seq<LogEntry>, b: seq<LogEntry>, c: seq<LogEntry>)
    requires Extends(a, b) && Extends(b, c)
    ensures Extends(a, c)
  {
    assert c[..|a|] == c[..|b|][..|a|];
  }

  /** The entries whose status is "minted", in log order. */
  function MintedOf(log: seq<LogEntry>): (ms: seq<LogEntry>)
    ensures |ms| <= |log|
    ensures forall k :: 0 <= k < |ms| ==> ms[k].Minted?
    decreases |log|
  {
    if |log| == 0 then []
    else (if Status(log[0]) == "minted" then [log[0]] else []) + MintedOf(log[1..])
  }

  /** Selecting minted entries distributes over concatenation, so it keeps
      their order and their repetitions. */
  lemma {:induction false} MintedOfAppend(a: seq<LogEntry>, b: seq<LogEntry>)
    ensures MintedOf(a + b) == MintedOf(a) + MintedOf(b)
    decreases |a|
  {
    if |a| > 0 {
      assert (a + b)[1..] == a[1..] + b;
      MintedOfAppend(a[1..], b);
    } else {
      assert a + b == b;
    }
  }

  /** Selecting "minted" entries misses none: each "minted" entry is kept as
      often as it occurs in the log, and no other entry is kept. */
  lemma {:induction false} MintedOfCounts(log: seq<LogEntry>, e: LogEntry)
    ensures multiset(MintedOf(log))[e] == if e.Minted? then multiset(log)[e] else 0
    decreases |log|
  {
    if |log| > 0 {
      var head := if Status(log[0]) == "minted" then [log[0]] else [];
      MintedOfCounts(log[1..], e);
      assert MintedOf(log) == head + MintedOf(log[1..]);
      assert multiset(MintedOf(log)) == multiset(head) + multiset(MintedOf(log[1..]));
      assert log == [log[0]] + log[1..];
      assert multiset(log) == multiset([log[0]]) + multiset(log[1..]);
    }
  }

  /** An entry is selected exactly when it is a "minted" entry of the log. */
  lemma MintedOfMembers(log: seq<LogEntry>, e: LogEntry)
    ensures e in MintedOf(log) <==> e in log && e.Minted?
  {
    MintedOfCounts(log, e);
    assert e in MintedOf(log) <==> multiset(MintedOf(log))[e] > 0;
    assert e in log <==> multiset(log)[e] > 0;
  }

  /** Mint addresses of the log's "minted" entries. */
  function MintAddresses(log: seq<LogEntry>): (addrs: set<Address>)
    ensures forall k :: 0 <= k < |log| && log[k].Minted? ==> log[k].mint in addrs
    ensures forall a :: a in addrs ==> exists k :: 0 <= k < |log| && log[k].Minted? && log[k].mint == a
  {
    set k | 0 <= k < |log| && log[k].Minted? :: log[k].mint
  }

  /** The mints of the selected entries are mints the log records. */
  lemma MintedAddresses(log: seq<LogEntry>)
    ensures MintAddresses(MintedOf(log)) <= MintAddresses(log)
  {
    var sel := MintedOf(log);
    forall a | a in MintAddresses(sel)
      ensures a in MintAddresses(log)
    {
      var k :| 0 <= k < |sel| && sel[k].Minted? && sel[k].mint == a;
      MintedOfMembers(log, sel[k]);
      var i :| 0 <= i < |log| && log[i] == sel[k];
      assert log[i].Minted? && log[i].mint == a;
    }
  }

  /** Every transfer record refers to a token that an earlier entry of the
      same log records as minted. */
  ghost predicate Grounded(log: seq<LogEntry>) {
    forall i :: 0 <= i < |log| && !log[i].Minted? ==>
      exists j :: 0 <= j < i && log[j].Minted? && log[j].mint == log[i].mint
  }

  /** Appending only mints, or transfers of tokens the old log already records
      as minted, keeps a grounded log grounded. */
  lemma ExtendGrounded(log: seq<LogEntry>, out: seq<LogEntry>)
    requires Grounded(log) && Extends(log, out)
    requires forall i :: |log| <= i < |out| ==> out[i].Minted? || out[i].mint in MintAddresses(log)
    ensures Grounded(out)
  {
    forall i | 0 <= i < |out| && !out[i].Minted?
      ensures exists j :: 0 <= j < i && out[j].Minted? && out[j].mint == out[i].mint
    {
      if i < |log| {
        assert out[i] == log[i];
        var j :| 0 <= j < i && log[j].Minted? && log[j].mint == log[i].mint;
        assert out[j] == log[j];
      } else {
        var j :| 0 <= j < |log| && log[j].Minted? && log[j].mint == out[i].mint;
        assert out[j] == log[j];
      }
    }
  }
}
