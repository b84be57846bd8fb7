/** One browser session of the tool: the state its component holds (log,
    recipients, copies per file), the drop handler that routes a file by its
    extension, and the user actions that change the state, each run to
    completion before the next. */
module Session {
  import opened Wrappers
  import opened JsValues
  import opened Text
  import opened AuditLog
  import opened Issuance
  import opened MintBatch
  import opened SendBatch
  import opened Recipients

  /** A dropped file, seen the two ways the tool can read it: as an archive
      (the entries it unpacks to, or the message when it cannot be opened)
      and as a CSV table (the rows it parses to). */
  datatype DroppedFile = DroppedFile(
    name: string,
    archive: Result<seq<ArchiveEntry>, string>,
    table: seq<seq<string>>)

  /** Where the drop handler sends a drop. `NoFile`: the drop carried no
      file, so reading the first file's name throws and nothing happens. */
  datatype Route = ToZip | ToCsv | Ignored | NoFile

  /** `handleDrop`: only the first file counts; ".zip" goes to the minting
      loop, ".csv" to the CSV recipient parser, anything else is ignored. */
  function RouteDrop(files: seq<DroppedFile>): (r: Route)
    ensures r == NoFile <==> |files| == 0
    ensures r == ToZip <==> |files| > 0 && EndsWith(files[0].name, ".zip")
    ensures r == ToCsv <==> |files| > 0 && EndsWith(files[0].name, ".csv")
  {
    if |files| == 0 then NoFile
    else if EndsWith(files[0].name, ".zip") then ToZip
    else if EndsWith(files[0].name, ".csv") then
      assert files[0].name[|files[0].name| - 1] == 'v';
      ToCsv
    else Ignored
  }

  /** The component's state. */
  datatype State = State(log: seq<LogEntry>, recipients: seq<string>, mintCount: MintCount)

  /** Freshly mounted: empty log, no recipients, one copy per file. */
  const Initial: State := State([], [], InitialMintCount)

  /** What the user can do; each event carries the token service as it
      behaves during that action. */
  datatype Event =
    | Drop(files: seq<DroppedFile>, svc: Service)
    | SetMintCount(count: MintCount)
    | EditRecipients(text: string)
    | ClickSend(svc: Service)

  /** The effect of one event run to completion. A minting batch that throws
      keeps what it logged before the exception; an archive that cannot be
      opened changes nothing. */
  function Step(s: State, e: Event): (t: State)
    ensures Extends(s.log, t.log)
    ensures e.SetMintCount? ==> t == s.(mintCount := e.count)
    ensures e.EditRecipients? ==> t == s.(recipients := TextareaRecipients(e.text))
    ensures !e.Drop? && !e.ClickSend? ==> t.log == s.log
    ensures e.ClickSend? ==> t == s.(log := SendAll(s.log, s.recipients, e.svc))
    ensures e.ClickSend? ==> |t.log| == |s.log| + |MintedOf(s.log)| * |s.recipients|
    ensures e.Drop? ==> t.mintCount == s.mintCount
    ensures e.Drop? && RouteDrop(e.files) == ToZip ==>
      && t.recipients == s.recipients
      && (e.files[0].archive.Success? ==> t.log == HandleZip(e.files[0].archive.value, s.mintCount, e.svc, s.log).log)
      && (e.files[0].archive.Failure? ==> t == s)
    ensures e.Drop? && RouteDrop(e.files) == ToCsv ==> t == s.(recipients := CsvRecipients(e.files[0].table))
    ensures e.Drop? && (RouteDrop(e.files) == Ignored || RouteDrop(e.files) == NoFile) ==> t == s
  {
    match e
    case Drop(files, svc) =>
      (match RouteDrop(files)
       case ToZip =>
         (match files[0].archive
          case Success(entries) => s.(log := HandleZip(entries, s.mintCount, svc, s.log).log)
          case Failure(_) => s)
       case ToCsv => s.(recipients := CsvRecipients(files[0].table))
       case Ignored => s
       case NoFile => s)
    case SetMintCount(count) => s.(mintCount := count)
    case EditRecipients(text) => s.(recipients := TextareaRecipients(text))
    case ClickSend(svc) =>
      SendFromIsFanout(s.log, s.recipients, svc, 0, s.log);
      FanoutLength(MintedOf(s.log), s.recipients, svc, 0);
      s.(log := SendAll(s.log, s.recipients, svc))
  }

  /** The state after a sequence of events. */
  function Replay(s: State, events: seq<Event>): State
    decreases |events|
  {
    if |events| == 0 then s else Replay(Step(s, events[0]), events[1..])
  }

  /** Every event keeps the log grounded: each transfer record names a token
      an earlier entry records as minted. */
  lemma StepKeepsGrounded(s: State, e: Event)
    requires Grounded(s.log)
    ensures Grounded(Step(s, e).log)
  {
    match e
    case Drop(files, svc) =>
      if RouteDrop(files) == ToZip && files[0].archive.Success? {
        MintKeepsGrounded(files[0].archive.value, s.mintCount, svc, s.log);
      }
    case SetMintCount(_) =>
    case EditRecipients(_) =>
    case ClickSend(svc) => SendKeepsGrounded(s.log, s.recipients, svc);
  }

  /** Over any session, the log only grows at its end and stays grounded. */
  lemma {:induction false} ReplayInvariant(s: State, events: seq<Event>)
    requires Grounded(s.log)
    ensures Extends(s.log, Replay(s, events).log)
    ensures Grounded(Replay(s, events).log)
    decreases |events|
  {
    if |events| > 0 {
      var next := Step(s, events[0]);
      StepKeepsGrounded(s, events[0]);
      ReplayInvariant(next, events[1..]);
      ExtendsTransitive(s.log, next.log, Replay(next, events[1..]).log);
    }
  }

  /** Every reachable log is grounded. */
  lemma SessionLogGrounded(events: seq<Event>)
    ensures Grounded(Replay(Initial, events).log)
  {
    ReplayInvariant(Initial, events);
  }

  // ---------------------------------------------------------------------------
  // Scenarios
  // ---------------------------------------------------------------------------

  /** A service on which every call succeeds; the n-th created token gets
      address `MintName(n)`. */
  function MintName(n: nat): Address {
    if n == 0 then "MintA" else "MintB"
  }

  const Cooperative: Service := Service(
    (m, j) => Success("uri"),
    (p: CreateParams, n: nat) => Success(MintName(n)),
    (a, to, n) => Success("sig"))

  const Ace: ArchiveEntry :=
    ArchiveEntry("ace.json", Success(map["name" := Str("Ace"), "seller_fee_basis_points" := Num(250.0)]))

  /** The archive of the scenario below: a README beside one metadata file. */
  const AceArchive: seq<ArchiveEntry> := [ArchiveEntry("README.md", Failure("not JSON")), Ace]

  /** Only the metadata file survives the ".json" filter. */
  lemma AceArchiveFiltered()
    ensures JsonEntries(AceArchive) == [Ace]
  {
    assert !IsMetadataFile("README.md");
    assert IsMetadataFile("ace.json");
    assert AceArchive[1..] == [Ace];
    assert [Ace][1..] == [];
  }

  /** Ace's two copies get the addresses of creation calls 0 and 1. */
  lemma AceBlock()
    ensures FileCompletes(Ace, 0, 2, Cooperative)
    ensures Block(Ace, 0, 2, Cooperative) == [Minted(Str("Ace"), "MintA"), Minted(Str("Ace"), "MintB")]
  {
    var block := Block(Ace, 0, 2, Cooperative);
    assert EntryName(Ace) == Str("Ace");
    assert CreatedMint(Ace, 0, 0, 2, Cooperative) == MintName(0);
    assert CreatedMint(Ace, 0, 1, 2, Cooperative) == MintName(1);
    assert block[0] == Minted(Str("Ace"), "MintA");
    assert block[1] == Minted(Str("Ace"), "MintB");
  }

  /** One metadata file with a fee of 250 minted with two copies: two
      "minted" entries named "Ace", with the two addresses the service
      returned; a README beside it in the archive is skipped. */
  lemma TwoCopiesOfAce()
    ensures HandleZip(AceArchive, Count(2), Cooperative, [])
      == MintRun([Minted(Str("Ace"), "MintA"), Minted(Str("Ace"), "MintB")], None)
    ensures ParamsFor("uri", Ace.content.value).sellerFeeBasisPoints == Num(250.0)
  {
    AceArchiveFiltered();
    assert Copies(Count(2)) == 2;
    AceBlock();
    OneFile(Ace, 0, 2, Cooperative, []);
    assert [] + Block(Ace, 0, 2, Cooperative) == Block(Ace, 0, 2, Cooperative);
  }

  /** A service whose second transfer is rejected. */
  const SecondTransferFails: Service := Service(
    (m, j) => Success("uri"),
    (p: CreateParams, n: nat) => Success(MintName(n)),
    (a, to, n) => if n == 1 then Failure("invalid recipient") else Success("sig"))

  /** Two recipients, one minted token, the second transfer rejected: one
      "sent" and one "error" entry, in recipient order. */
  lemma SecondRecipientRejected(r1: string, r2: string)
    ensures var log := [Minted(Str("Ace"), "MintA")];
      SendAll(log, [r1, r2], SecondTransferFails)
        == log + [Sent("MintA", r1, "sig"), Error("MintA", r2, "invalid recipient")]
  {
    var log := [Minted(Str("Ace"), "MintA")];
    var recipients := [r1, r2];
    SendFromIsFanout(log, recipients, SecondTransferFails, 0, log);
    assert MintedOf(log) == log by {
      assert log[1..] == [];
    }
    assert log[1..] == [];
  }

  /** A copies field of 0 (or anything not a positive number) mints nothing,
      and sending from the resulting empty log logs nothing either. */
  lemma ZeroCopiesThenSend(entries: seq<ArchiveEntry>, count: MintCount, svc: Service, recipients: seq<string>)
    requires !Below(0, count)
    ensures HandleZip(entries, count, svc, []).log == []
    ensures SendAll(HandleZip(entries, count, svc, []).log, recipients, svc) == []
  {
    SendFromIsFanout([], recipients, svc, 0, []);
  }
}
