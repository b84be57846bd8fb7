# Solana NFT batch tool: a Dafny model of its orchestration core

The tool is a single browser component (`components/NFTTool.js`). It batch-mints
NFTs from a dropped `.zip` of JSON metadata files. It then sends every minted
token to every address in a recipient list. Each step is recorded in a log the
user can read and download. Uploading, minting and transferring are done by the
Metaplex/Solana SDK. The component owns only the orchestration around those
calls, and that orchestration is what this project models:

- **Mint loop** (`handleZip`). It keeps only the archive entries whose name ends
  in `.json`. Each one is uploaded, then `mintCount` tokens are created from it,
  and every creation appends one `"minted"` entry to the log. A falsy
  `seller_fee_basis_points` becomes 500 and a falsy `symbol` becomes `""`.
  Nothing in the loop catches an exception, so the first failure ends the batch.
- **Send fan-out** (`handleSend`). It visits the `"minted"` entries of the log as
  it stood at the click. For each one it tries every recipient in order and
  appends exactly one `"sent"` or `"error"` entry per attempt. The try/catch is
  around each single transfer, so no failure stops the fan-out.
- **Recipient parsing.** A dropped `.csv` gives every cell longer than 30
  characters. The textarea gives its text split on `,` or `\n`, each piece
  trimmed and none filtered.
- **Drop routing** (`handleDrop`). Only the first dropped file counts: `.zip`
  goes to the mint loop, `.csv` to the CSV parser, anything else is ignored.
- **Log discipline.** Every update is `setLog(log => [...log, entry])`, so the
  log only ever grows by one entry at its end.

External calls are oracles. `Issuance.Service` bundles three functions:
`upload(metadata, j)`, `create(params, n)` and `send(mint, to, n)`. Each
returns a `Result`: the value the SDK call returned, or the message of the
exception it threw. Each call also carries its ordinal within the batch
(metadata file j; creation call j·copies + i; transfer call m·|recipients| + q).
This lets a stateful remote service, which hands out a fresh mint address per
creation, be written as a plain function. The awaits become sequential steps,
and the component's React state becomes `Session.State`, changed one user
`Event` at a time.

Files: `wrappers.dfy` (Option/Result), `seq_facts.dfy` (generic sequence facts), `js_values.dfy` (JSON values, truthiness,
`||`), `text.dfy` (`endsWith`, `split(/,|\n/)`, `trim`), `audit_log.dfy` (log
entries, append, selection, groundedness), `issuance.dfy` (the oracle
interface), `mint_batch.dfy`, `send_batch.dfy`, `recipients.dfy`, `session.dfy`.

### Behaviour of the code worth knowing

- `handleZip` has no try/catch. The first failing read, `JSON.parse`, upload
  or create ends the batch, and the entries already logged stay
  (`MintRun.fault`). The mint loop never logs an "error" entry.
- Only CSV cells pass the "longer than 30 characters" filter. The textarea
  keeps empty and short pieces, so an empty textarea or a trailing comma gives
  an empty recipient.
- The copy count is the result of `parseInt`, so it may be 0, negative or NaN;
  each of these mints nothing.

## Model

| member | source | states |
|---|---|---|
| JsValues.Or | components/NFTTool.js:46-47 | `a \|\| b` is `a` when `a` is truthy and `b` otherwise; the result is truthy iff either operand is |
| Text.Split | components/NFTTool.js:182 | `split(/,\|\n/)` gives at least one piece, and no piece contains a comma or newline |
| Text.SplitCount | components/NFTTool.js:182 | there is exactly one piece more than there are separators |
| Text.SplitJoin | components/NFTTool.js:182 | putting the separators back between the pieces rebuilds the text: splitting loses nothing |
| Text.JoinSplit | components/NFTTool.js:182 | splitting separator-free pieces joined by commas or newlines gives back exactly those pieces |
| Text.Trim | components/NFTTool.js:182 | `trim()` gives a contiguous part of the input with only whitespace cut on both sides, and with no whitespace at either end |
| Text.TrimUnique | components/NFTTool.js:182 | any core without outer whitespace, wrapped in any whitespace, trims to exactly that core |
| Text.TrimIdempotent | components/NFTTool.js:182 | trimming twice gives the same as trimming once |
| AuditLog.Status | components/NFTTool.js:51-114 | the status string is "minted", "sent" or "error" exactly for the matching kind of entry |
| AuditLog.Append | components/NFTTool.js:51-54 | a log update adds one entry at the end and leaves every earlier entry unchanged |
| AuditLog.MintedOf | components/NFTTool.js:86-87 | the entries the send loop visits are all "minted" entries, and there are no more of them than log entries |
| AuditLog.MintedOfCounts | components/NFTTool.js:86-87 | the selection misses no "minted" entry: each occurs in it exactly as often as in the log, and no other entry occurs |
| AuditLog.MintedOfMembers | components/NFTTool.js:86-87 | an entry is visited iff it is in the log and is a "minted" entry |
| AuditLog.MintedOfAppend | components/NFTTool.js:86-87 | selecting "minted" entries distributes over concatenation, so it keeps their order and their repeats |
| AuditLog.MintedAddresses | components/NFTTool.js:86-88 | every selected mint address belongs to a "minted" entry of the log |
| AuditLog.ExtendGrounded | components/NFTTool.js:96-114 | appending mints, or transfers of tokens already logged as minted, keeps every transfer record backed by an earlier mint |
| Text.EndsWithAppend | components/NFTTool.js:34 | `endsWith` holds for any string followed by the suffix |
| Text.EndsWithMeans | components/NFTTool.js:62-63 | a name ends with a suffix exactly when it is some string followed by that suffix |
| MintBatch.JsonEntries | components/NFTTool.js:34 | every kept archive entry is named "*.json", and none is added |
| MintBatch.JsonEntriesMembers | components/NFTTool.js:34 | an entry is kept iff it is in the archive and its name ends with ".json" |
| MintBatch.JsonEntriesAppend | components/NFTTool.js:34 | the filter distributes over concatenation, so archive order is kept |
| MintBatch.SkipsNonMetadata | components/NFTTool.js:34 | adding a non-JSON entry anywhere in the archive does not change the batch's outcome |
| MintBatch.Copies | components/NFTTool.js:42 | the copy loop runs exactly for the i with `i < mintCount`: max(n, 0) times, and never for NaN |
| MintBatch.ParamsFor | components/NFTTool.js:43-49 | create gets the uploaded uri and the metadata name (undefined when the file has none); the fee is the metadata's when truthy and 500 otherwise, so an absent fee and a fee of 0 both give 500 while 250 stays 250, and the fee is never falsy; the symbol is the metadata's when truthy and "" otherwise, including when absent |
| MintBatch.CopiesFrom | components/NFTTool.js:42-55 | the copy loop appends only "minted" entries carrying the file's name and the address returned by the matching create call; it completes iff every create call succeeds; otherwise it stops at the first failing call and reports that call's message |
| MintBatch.FileStep | components/NFTTool.js:37-55 | one metadata file appends at most `copies` entries; it completes iff parse, upload and every create succeed, and then appends exactly `copies` entries; a failure with copies > 0 appends fewer |
| MintBatch.FilesFrom | components/NFTTool.js:36-56 | the file loop only appends, and only "minted" entries |
| MintBatch.FilesCount | components/NFTTool.js:36-56 | n metadata files append at most n·copies entries; the batch completes iff every file completes, and then appends exactly n·copies; a failure with copies > 0 loses at least one |
| MintBatch.HandleZip | components/NFTTool.js:32-57 | the log only grows, and only by "minted" entries: exactly files·copies when nothing throws, and none at all when the count is NaN or not positive |
| MintBatch.OneFile | components/NFTTool.js:42-54 | a completing file appends its block: `copies` entries with its name, the q-th holding the address from create call j·copies + q |
| MintBatch.FilesConcat | components/NFTTool.js:36-56 | a batch over a + b is the batch over a followed, unless it threw, by the batch over b: files are processed strictly in order |
| MintBatch.MintKeepsGrounded | components/NFTTool.js:51-54 | minting keeps every transfer record backed by an earlier mint |
| MintBatch.RunCopies | components/NFTTool.js:42-55 | the imperative copy loop computes exactly the copy-loop definition |
| MintBatch.RunFile | components/NFTTool.js:37-55 | the outer loop body (parse, upload, copies) computes exactly the one-file step |
| MintBatch.RunHandleZip | components/NFTTool.js:32-57 | the imperative `handleZip`, with its early exits, computes exactly `HandleZip` |
| SendBatch.Transfer | components/NFTTool.js:91-115 | each attempt logs its mint and recipient; it logs "sent" with the signature iff the transfer returned, and "error" with the message otherwise |
| SendBatch.SendTo | components/NFTTool.js:90-116 | the recipient loop appends exactly one entry per remaining recipient after the existing log |
| SendBatch.SendAll | components/NFTTool.js:85-118 | sending only appends, never a "minted" entry, and every appended entry names a mint the captured log records as minted |
| SendBatch.Row | components/NFTTool.js:90-116 | one mint's row has one attempt per recipient |
| SendBatch.SendToIsRow | components/NFTTool.js:90-116 | the recipient loop appends exactly the rest of the mint's row, in recipient order |
| SendBatch.SendFromIsFanout | components/NFTTool.js:86-117 | the send loop appends exactly the fan-out of the captured log's "minted" entries: other entries are skipped and entries appended during the run are not visited |
| SendBatch.FanoutLength | components/NFTTool.js:86-117 | the fan-out has \|minted\|·\|recipients\| attempts |
| SendBatch.FanoutAt | components/NFTTool.js:86-117 | the attempt for the m-th mint and the q-th recipient sits at position m·\|recipients\| + q and is transfer call m·\|recipients\| + q (mint outer, recipient inner) |
| SendBatch.FanoutMints | components/NFTTool.js:88-109 | every attempt is a transfer of one of the visited mints |
| SendBatch.SendKeepsMinted | components/NFTTool.js:86-87 | sending adds no "minted" entry, so a second click visits the same mints again |
| SendBatch.SendKeepsGrounded | components/NFTTool.js:96-114 | after a send, every transfer record is still backed by an earlier mint |
| SendBatch.FailuresDoNotStopFanout | components/NFTTool.js:91-115 | when every transfer throws, every (mint, recipient) pair still gets its "error" entry |
| SendBatch.FanoutAllFailed | components/NFTTool.js:105-114 | with a service that always rejects, every fan-out entry is an "error" entry |
| SendBatch.RunHandleSend | components/NFTTool.js:85-118 | the imperative `handleSend` computes exactly `SendAll` and appends \|minted\|·\|recipients\| entries |
| Recipients.FlattenAppend | components/NFTTool.js:73 | flattening distributes over concatenation, so rows stay in order |
| Recipients.FlattenCounts | components/NFTTool.js:73 | flattening keeps each cell as many times as it occurs across the rows |
| Recipients.KeepLong | components/NFTTool.js:73 | every kept cell is longer than 30, and every longer cell is kept as many times as it occurs |
| Recipients.KeepLongAppend | components/NFTTool.js:73 | the length filter distributes over concatenation, so order is kept |
| Recipients.CsvRecipients | components/NFTTool.js:70-75 | the CSV recipients are exactly the cells longer than 30, duplicates included |
| Recipients.CsvRecipientsAppend | components/NFTTool.js:72-73 | the recipients of rows a + b are those of a followed by those of b |
| Recipients.FlattenOne | components/NFTTool.js:73 | a single row flattens to itself, cells in their order |
| Recipients.KeepLongOne | components/NFTTool.js:73 | the filter keeps one cell exactly when it is longer than 30 |
| Recipients.CsvRecipientsRow | components/NFTTool.js:72-73 | one CSV line gives its long cells in cell order; with CsvRecipientsAppend, KeepLongAppend and KeepLongOne this fixes the order of all recipients |
| Recipients.CsvKeepsCellOrder | components/NFTTool.js:72-73 | a line "a,short,b" with two addresses around a short cell gives exactly [a, b] |
| Recipients.TrimSeparatorFree | components/NFTTool.js:182 | trimming a piece cannot bring back a comma or newline |
| Recipients.TextareaRecipients | components/NFTTool.js:181-183 | recipient k is piece k of `split(/,\|\n/)` trimmed: one recipient per separator plus one, each free of outer whitespace and of separators; nothing is dropped |
| Recipients.TextareaRoundTrip | components/NFTTool.js:182 | addresses typed comma- or newline-separated, each with any spaces or tabs around it, come back exactly, in order and with repeats |
| Recipients.SpaceAfterComma | components/NFTTool.js:182 | "addr1, addr2" gives exactly the recipients "addr1" and "addr2" |
| Recipients.SplitTrailingSeparator | components/NFTTool.js:182 | a trailing separator adds one empty piece |
| Recipients.TrailingSeparatorAddsEmptyRecipient | components/NFTTool.js:182 | a trailing comma or newline adds an empty recipient, and an empty textarea gives [""] |
| Session.RouteDrop | components/NFTTool.js:59-64 | a drop with no file does nothing; ".zip" goes to the mint loop iff the first file's name ends so, and likewise ".csv" to the CSV parser; a file never goes to both |
| Session.Step | components/NFTTool.js:59-183 | every action only grows the log. A send appends the fan-out over the log to the log and leaves recipients and copies alone. A drop never changes copies: a ".zip" drop runs the mint loop with the current count and leaves recipients alone (an unreadable archive changes nothing), a ".csv" drop sets recipients to the CSV recipients of the file and changes nothing else, any other drop changes nothing. The copies field and the textarea change only their own field |
| Session.StepKeepsGrounded | components/NFTTool.js:51-54 | no action creates a transfer record without an earlier mint |
| Session.ReplayInvariant | components/NFTTool.js:96-114 | over any sequence of actions the log is append-only and stays grounded |
| Session.SessionLogGrounded | components/NFTTool.js:12 | every log reachable from the empty initial log is grounded |
| Session.TwoCopiesOfAce | components/NFTTool.js:32-57 | an archive holding a README and one "Ace" file (fee 250), minted with 2 copies, logs exactly two "Ace" entries with the two returned addresses, and the fee passed is 250 |
| Session.SecondRecipientRejected | components/NFTTool.js:90-116 | one mint and two recipients where the second transfer throws gives one "sent" and then one "error" entry |
| Session.ZeroCopiesThenSend | components/NFTTool.js:42 | a non-positive or NaN count mints nothing, and a send over the resulting empty log logs nothing |

## Left out

- The Metaplex calls `uploadMetadata`, `nfts().create` and `nfts().send` (components/NFTTool.js:40, 43-49, 92-95) are foreign SDK calls and appear only as the `Issuance.Service` oracles.
- `PublicKey` construction and `toBase58` (components/NFTTool.js:88, 94, 99, 109) are treated as the identity on addresses. A minted entry's address comes from `toBase58`, so re-parsing it outside the try/catch cannot throw. An unparseable recipient is a failure of the `send` oracle, which is caught as in the code.
- JSZip (components/NFTTool.js:33, 37) and `JSON.parse` (line 38) are library decoders. An archive is the sequence of its entries in `zip.files` key order, and each entry's content is the parsed object or the message of the exception thrown. A file whose JSON is not an object is not modelled.
- JavaScript numbers are modelled as `real`. `JSON.parse` never yields NaN. A literal too large for a double, such as `1e400`, yields Infinity, which is truthy and passes through `||` at components/NFTTool.js:46 just as the large real that stands for it does. A nonzero literal too small for a double, such as `1e-400`, yields 0, which JavaScript replaces by 500 while the model keeps the nonzero real; this underflow is part of the floating-point rounding that is not modelled.
- The `parseInt` of the copies field (components/NFTTool.js:157) is represented only by its result, `MintCount` (an integer or NaN); Infinity has no representation (see the MintBatch.Copies line below).
- MintBatch.Copies: `MintCount` has no Infinity, which `parseInt` returns for a digit string whose value is at least about 1.8e308. For a count above 2^53, `Copies` gives n, but in JavaScript `i++` stops growing at 2^53, so `i < mintCount` never turns false and only a failing create call ends the loop. JavaScript number precision is not modelled.
- Recipients.KeepLong (and so Recipients.CsvRecipients): lengths are counted in Unicode scalar values, while JavaScript counts UTF-16 code units. A cell with characters outside the Basic Multilingual Plane can therefore be judged differently by the "longer than 30" test.
- Papa.parse (components/NFTTool.js:72) is a library CSV codec. Its result is taken as given rows of cells.
- The CSV download (`Papa.unparse`, the blob and the anchor, components/NFTTool.js:120-128) is a library codec plus browser I/O and is not modelled.
- Keypair upload, the `Keypair.generate()` fallback identity, the connection, the network choice and the update authority (components/NFTTool.js:13-30, 48, 77-83) are wallet and crypto plumbing.
- React rendering (components/NFTTool.js:130-207) is not modelled. Each event runs to completion before the next, so a mint batch still running when send is clicked, and its interleaved `setLog` calls, are not modelled.
- pages/_app.js (wallet and connection providers) and pages/index.js (a dynamic-import wrapper) are framework wiring.
