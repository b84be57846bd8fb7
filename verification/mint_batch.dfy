/** The minting loop run when an archive is dropped: every `.json` entry of
    the archive is uploaded as metadata, then `mintCount` tokens are created
    from it, each creation logging one "minted" entry. Nothing in the loop
    catches an exception, so the first failing read, parse, upload or
    creation ends the whole batch; entries already logged stay. */
module MintBatch {
  import opened Wrappers
  import opened JsValues
  import opened Text
  import opened AuditLog
  import opened Issuance
  import opened SeqFacts

  /** One archive entry: its path, and the outcome of reading it as text and
      parsing it as JSON (a failure carries the exception's message). */
  datatype ArchiveEntry = ArchiveEntry(name: string, content: Result<Metadata, string>)

  /** The copies field after `parseInt`: an integer, or NaN when the field
      does not start with a number. */
  datatype MintCount = Count(n: int) | NaN

  /** What a batch leaves behind: the log, and the exception that ended the
      batch early, if one did. */
  datatype MintRun = MintRun(log: seq<LogEntry>, fault: Option<string>)

  /** The copies field's initial value. */
  const InitialMintCount: MintCount := Count(1)
  /** Royalty used when the metadata's fee is falsy, in basis points. */
  const DefaultFee: JsValue := Num(500.0)
  const DefaultSymbol: JsValue := Str("")

  /** Archive entries the loop processes. */
  predicate IsMetadataFile(name: string) {
    EndsWith(name, ".json")
  }

  /** The archive's entries whose name ends with ".json", in archive order. */
  function JsonEntries(entries: seq<ArchiveEntry>): (files: seq<ArchiveEntry>)
    ensures |files| <= |entries|
    ensures forall k :: 0 <= k < |files| ==> IsMetadataFile(files[k].name)
    decreases |entries|
  {
    if |entries| == 0 then []
    else (if IsMetadataFile(entries[0].name) then [entries[0]] else []) + JsonEntries(entries[1..])
  }

  lemma {:induction false} JsonEntriesAppend(a: seq<ArchiveEntry>, b: seq<ArchiveEntry>)
    ensures JsonEntries(a + b) == JsonEntries(a) + JsonEntries(b)
    decreases |a|
  {
    if |a| > 0 {
      assert (a + b)[1..] == a[1..] + b;
      JsonEntriesAppend(a[1..], b);
    } else {
      assert a + b == b;
    }
  }

  /** The filter keeps exactly the archive entries named "*.json". */
  lemma {:induction false} JsonEntriesMembers(entries: seq<ArchiveEntry>, x: ArchiveEntry)
    ensures x in JsonEntries(entries) <==> x in entries && IsMetadataFile(x.name)
    decreases |entries|
  {
    if |entries| > 0 {
      JsonEntriesMembers(entries[1..], x);
      assert entries == [entries[0]] + entries[1..];
    }
  }

  /** JavaScript's `i < mintCount`; every comparison with NaN is false. */
  predicate Below(i: int, count: MintCount) {
    count.Count? && i < count.n
  }

  /** How many times `for (let i = 0; i < mintCount; i++)` runs its body:
      exactly the naturals i for which the guard holds. */
  function Copies(count: MintCount): (k: nat)
    ensures forall i: nat :: i < k <==> Below(i, count)
  {
    if count.Count? && count.n > 0 then count.n else 0
  }

  /** The creation request built from uploaded metadata. The fee is the
      metadata's `seller_fee_basis_points` only when that is truthy, so an
      absent fee and an explicit 0 both become 500; the symbol is the
      metadata's when truthy, else the empty string. */
  function ParamsFor(uri: string, m: Metadata): (p: CreateParams)
    ensures p.uri == uri && p.name == Field(m, "name")
    ensures Truthy(p.sellerFeeBasisPoints)
    ensures Truthy(Field(m, "seller_fee_basis_points")) ==> p.sellerFeeBasisPoints == Field(m, "seller_fee_basis_points")
    ensures !Truthy(Field(m, "seller_fee_basis_points")) ==> p.sellerFeeBasisPoints == Num(500.0)
    ensures Truthy(Field(m, "symbol")) ==> p.symbol == Field(m, "symbol")
    ensures !Truthy(Field(m, "symbol")) ==> p.symbol == Str("")
    ensures "name" !in m ==> p.name == Undefined
    ensures "seller_fee_basis_points" !in m ==> p.sellerFeeBasisPoints == Num(500.0)
    ensures "seller_fee_basis_points" in m && m["seller_fee_basis_points"] == Num(0.0) ==> p.sellerFeeBasisPoints == Num(500.0)
    ensures "seller_fee_basis_points" in m && m["seller_fee_basis_points"] == Num(250.0) ==> p.sellerFeeBasisPoints == Num(250.0)
    ensures "symbol" !in m ==> p.symbol == Str("")
  {
    CreateParams(
      uri,
      Field(m, "name"),
      Or(Field(m, "seller_fee_basis_points"), DefaultFee),
      Or(Field(m, "symbol"), DefaultSymbol))
  }

  /** Every creation call with an ordinal in [lo, hi) returns an address. */
  predicate CreatesSucceed(params: CreateParams, lo: nat, hi: nat, svc: Service) {
    forall n :: lo <= n < hi ==> svc.create(params, n).Success?
  }

  /** Copies i .. copies-1 of one metadata file; creation call i has ordinal
      base + i. */
  function CopiesFrom(name: JsValue, params: CreateParams, i: nat, copies: nat, svc: Service,
                      base: nat, log: seq<LogEntry>): (out: MintRun)
    requires i <= copies
    ensures Extends(log, out.log)
    ensures |out.log| <= |log| + (copies - i)
    ensures forall k :: |log| <= k < |out.log| ==>
      && out.log[k].Minted? && out.log[k].name == name
      && svc.create(params, base + i + (k - |log|)) == Success(out.log[k].mint)
    ensures out.fault.None? <==> CreatesSucceed(params, base + i, base + copies, svc)
    ensures out.fault.None? ==> |out.log| == |log| + (copies - i)
    ensures out.fault.Some? ==>
      && |out.log| < |log| + (copies - i)
      && svc.create(params, base + i + (|out.log| - |log|)) == Failure(out.fault.value)
    decreases copies - i
  {
    if i == copies then MintRun(log, None)
    else
      match svc.create(params, base + i)
      case Failure(e) => MintRun(log, Some(e))
      case Success(mint) =>
        CopiesFrom(name, params, i + 1, copies, svc, base, Append(log, Minted(name, mint)))
  }

  /** The file, the archive's j-th metadata file, parses, uploads, and gets
      all its copies created. */
  predicate FileCompletes(e: ArchiveEntry, j: nat, copies: nat, svc: Service) {
    && e.content.Success?
    && svc.upload(e.content.value, j).Success?
    && CreatesSucceed(ParamsFor(svc.upload(e.content.value, j).value, e.content.value),
                      j * copies, j * copies + copies, svc)
  }

  /** Every file of `files` completes; `files[0]` is the archive's j-th
      metadata file. */
  predicate Completes(files: seq<ArchiveEntry>, j: nat, copies: nat, svc: Service)
    decreases |files|
  {
    |files| == 0 || (FileCompletes(files[0], j, copies, svc) && Completes(files[1..], j + 1, copies, svc))
  }

  /** One metadata file, the archive's j-th: parse outcome, upload call j,
      then creation calls j*copies .. j*copies + copies - 1. */
  function FileStep(e: ArchiveEntry, j: nat, copies: nat, svc: Service, log: seq<LogEntry>): (out: MintRun)
    ensures Extends(log, out.log)
    ensures |out.log| <= |log| + copies
    ensures forall k :: |log| <= k < |out.log| ==> out.log[k].Minted?
    ensures out.fault.None? <==> FileCompletes(e, j, copies, svc)
    ensures out.fault.None? ==> |out.log| == |log| + copies
    ensures out.fault.Some? && copies > 0 ==> |out.log| < |log| + copies
  {
    match e.content
    case Failure(err) => MintRun(log, Some(err))
    case Success(m) =>
      match svc.upload(m, j)
      case Failure(err) => MintRun(log, Some(err))
      case Success(uri) => CopiesFrom(Field(m, "name"), ParamsFor(uri, m), 0, copies, svc, j * copies, log)
  }

  /** The loop over metadata files, from the archive's j-th one on. */
  function FilesFrom(files: seq<ArchiveEntry>, j: nat, copies: nat, svc: Service,
                     log: seq<LogEntry>): (out: MintRun)
    ensures Extends(log, out.log)
    ensures forall k :: |log| <= k < |out.log| ==> out.log[k].Minted?
    decreases |files|
  {
    if |files| == 0 then MintRun(log, None)
    else
      var first := FileStep(files[0], j, copies, svc, log);
      if first.fault.Some? then first
      else
        var rest := FilesFrom(files[1..], j + 1, copies, svc, first.log);
        ExtendsTransitive(log, first.log, rest.log);
        rest
  }

  /** A batch over n metadata files appends at most n * copies entries,
      exactly that many when it completes, and strictly fewer when an
      exception cuts it short (unless there was nothing to mint). */
  lemma {:induction false} FilesCount(files: seq<ArchiveEntry>, j: nat, copies: nat, svc: Service,
                                      log: seq<LogEntry>)
    ensures var out := FilesFrom(files, j, copies, svc, log);
      && (out.fault.None? <==> Completes(files, j, copies, svc))
      && |out.log| <= |log| + |files| * copies
      && (out.fault.None? ==> |out.log| == |log| + |files| * copies)
      && (out.fault.Some? && copies > 0 ==> |out.log| < |log| + |files| * copies)
    decreases |files|
  {
    if |files| > 0 {
      var first := FileStep(files[0], j, copies, svc, log);
      MulSucc(|files| - 1, copies);
      if first.fault.None? {
        var rest := FilesFrom(files[1..], j + 1, copies, svc, first.log);
        FilesCount(files[1..], j + 1, copies, svc, first.log);
        assert FilesFrom(files, j, copies, svc, log) == rest;
      } else {
        assert FilesFrom(files, j, copies, svc, log) == first;
        assert !Completes(files, j, copies, svc);
      }
    }
  }

  /** `handleZip`: the metadata files of the archive, `Copies(count)` tokens
      each, appended to `log`. A count that is NaN or not positive mints
      nothing, though each file is still parsed and uploaded. */
  function HandleZip(entries: seq<ArchiveEntry>, count: MintCount, svc: Service,
                     log: seq<LogEntry>): (out: MintRun)
    ensures Extends(log, out.log)
    ensures forall k :: |log| <= k < |out.log| ==> out.log[k].Minted?
    ensures |out.log| <= |log| + |JsonEntries(entries)| * Copies(count)
    ensures out.fault.None? <==> Completes(JsonEntries(entries), 0, Copies(count), svc)
    ensures out.fault.None? ==> |out.log| == |log| + |JsonEntries(entries)| * Copies(count)
    ensures Copies(count) == 0 ==> out.log == log
  {
    FilesCount(JsonEntries(entries), 0, Copies(count), svc, log);
    FilesFrom(JsonEntries(entries), 0, Copies(count), svc, log)
  }

  // ---------------------------------------------------------------------------
  // Layout of a batch
  // ---------------------------------------------------------------------------

  /** Address returned by the q-th creation call for a file that is the
      archive's j-th metadata file (meaningful when that file completes). */
  function CreatedMint(e: ArchiveEntry, j: nat, q: nat, copies: nat, svc: Service): Address {
    match e.content
    case Failure(_) => ""
    case Success(m) =>
      match svc.upload(m, j)
      case Failure(_) => ""
      case Success(uri) =>
        match svc.create(ParamsFor(uri, m), j * copies + q)
        case Failure(_) => ""
        case Success(a) => a
  }

  /** The `name` property of a parsed entry. */
  function EntryName(e: ArchiveEntry): JsValue {
    if e.content.Success? then Field(e.content.value, "name") else Undefined
  }

  /** The entries one completing metadata file contributes: `copies` of them,
      all carrying its name, the q-th carrying the q-th created address. */
  function Block(e: ArchiveEntry, j: nat, copies: nat, svc: Service): seq<LogEntry> {
    seq(copies, q requires 0 <= q => Minted(EntryName(e), CreatedMint(e, j, q, copies, svc)))
  }

  /** A metadata file that parses, uploads and creates every copy appends
      exactly its block. */
  lemma OneFile(e: ArchiveEntry, j: nat, copies: nat, svc: Service, log: seq<LogEntry>)
    requires FileCompletes(e, j, copies, svc)
    ensures FilesFrom([e], j, copies, svc, log) == MintRun(log + Block(e, j, copies, svc), None)
  {
    var first := FileStep(e, j, copies, svc, log);
    assert [e][1..] == [];
    assert FilesFrom([e], j, copies, svc, log) == FilesFrom([], j + 1, copies, svc, first.log);
    var want := log + Block(e, j, copies, svc);
    assert |first.log| == |want|;
    forall k | 0 <= k < |want|
      ensures first.log[k] == want[k]
    {
      if k < |log| {
        assert first.log[k] == first.log[..|log|][k];
      }
    }
  }

  /** The loop over files composes sequentially: a batch over `a + b` is a
      batch over `a` followed, unless it faulted, by a batch over `b`. */
  lemma {:induction false} FilesConcat(a: seq<ArchiveEntry>, b: seq<ArchiveEntry>, j: nat,
                                       copies: nat, svc: Service, log: seq<LogEntry>)
    ensures FilesFrom(a + b, j, copies, svc, log) ==
      var first := FilesFrom(a, j, copies, svc, log);
      if first.fault.Some? then first else FilesFrom(b, j + |a|, copies, svc, first.log)
    decreases |a|
  {
    if |a| == 0 {
      assert a + b == b;
    } else {
      DropAppend(a, b);
      var first := FileStep(a[0], j, copies, svc, log);
      if first.fault.Some? {
        assert FilesFrom(a + b, j, copies, svc, log) == first;
        assert FilesFrom(a, j, copies, svc, log) == first;
      } else {
        FilesConcat(a[1..], b, j + 1, copies, svc, first.log);
        assert FilesFrom(a + b, j, copies, svc, log) == FilesFrom(a[1..] + b, j + 1, copies, svc, first.log);
        assert FilesFrom(a, j, copies, svc, log) == FilesFrom(a[1..], j + 1, copies, svc, first.log);
        assert j + 1 + |a[1..]| == j + |a|;
      }
    }
  }

  /** Entries the filter drops never influence a batch: inserting a non-JSON
      entry anywhere in the archive leaves the outcome unchanged. */
  lemma SkipsNonMetadata(a: seq<ArchiveEntry>, x: ArchiveEntry, b: seq<ArchiveEntry>,
                         count: MintCount, svc: Service, log: seq<LogEntry>)
    requires !IsMetadataFile(x.name)
    ensures HandleZip(a + [x] + b, count, svc, log) == HandleZip(a + b, count, svc, log)
  {
    JsonEntriesAppend(a + [x], b);
    JsonEntriesAppend(a, [x]);
    JsonEntriesAppend(a, b);
    assert JsonEntries([x]) == [] by {
      assert [x][1..] == [];
    }
    calc {
      JsonEntries(a + [x] + b);
      JsonEntries(a + [x]) + JsonEntries(b);
      JsonEntries(a) + JsonEntries([x]) + JsonEntries(b);
      { assert JsonEntries(a) + [] == JsonEntries(a); }
      JsonEntries(a) + JsonEntries(b);
      JsonEntries(a + b);
    }
  }

  /** A batch only adds "minted" entries, so it keeps a grounded log grounded. */
  lemma MintKeepsGrounded(entries: seq<ArchiveEntry>, count: MintCount, svc: Service, log: seq<LogEntry>)
    requires Grounded(log)
    ensures Grounded(HandleZip(entries, count, svc, log).log)
  {
    ExtendGrounded(log, HandleZip(entries, count, svc, log).log);
  }

  /** The inner loop of `handleZip`: `copies` creation calls from one
      uploaded file, each success appended, the first failure returned. */
  method RunCopies(name: JsValue, params: CreateParams, copies: nat, svc: Service, base: nat,
                   log: seq<LogEntry>) returns (updated: seq<LogEntry>, fault: Option<string>)
    ensures MintRun(updated, fault) == CopiesFrom(name, params, 0, copies, svc, base, log)
  {
    updated := log;
    for i := 0 to copies
      invariant CopiesFrom(name, params, i, copies, svc, base, updated) == CopiesFrom(name, params, 0, copies, svc, base, log)
    {
      var created := svc.create(params, base + i);
      if created.Failure? {
        return updated, Some(created.error);
      }
      updated := Append(updated, Minted(name, created.value));
    }
    return updated, None;
  }

  /** The body of `handleZip`'s outer loop for the archive's j-th metadata
      file: parse, upload, then the inner loop. */
  method RunFile(entry: ArchiveEntry, j: nat, copies: nat, svc: Service, log: seq<LogEntry>)
    returns (updated: seq<LogEntry>, fault: Option<string>)
    ensures MintRun(updated, fault) == FileStep(entry, j, copies, svc, log)
  {
    if entry.content.Failure? {
      return log, Some(entry.content.error);
    }
    var metadata := entry.content.value;
    var uploaded := svc.upload(metadata, j);
    if uploaded.Failure? {
      return log, Some(uploaded.error);
    }
    updated, fault := RunCopies(Field(metadata, "name"), ParamsFor(uploaded.value, metadata), copies, svc, j * copies, log);
  }

  /** `handleZip` as written: the outer loop over metadata files, the inner
      loop over copies, one log append per created token, and no handler, so
      the first failure returns at once. */
  method RunHandleZip(entries: seq<ArchiveEntry>, count: MintCount, svc: Service,
                      log: seq<LogEntry>) returns (updated: seq<LogEntry>, fault: Option<string>)
    ensures MintRun(updated, fault) == HandleZip(entries, count, svc, log)
  {
    var files := JsonEntries(entries);
    var copies := Copies(count);
    updated := log;
    for j := 0 to |files|
      invariant FilesFrom(files[j..], j, copies, svc, updated) == FilesFrom(files, 0, copies, svc, log)
    {
      assert files[j..][0] == files[j] && files[j..][1..] == files[j + 1..];
      var f;
      updated, f := RunFile(files[j], j, copies, svc, updated);
      if f.Some? {
        return updated, f;
      }
    }
    assert files[|files|..] == [];
    return updated, None;
  }
}
