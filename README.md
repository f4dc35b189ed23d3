# ARTEMIS license oracle and ownership script, in Dafny

This project models two parts of the ARTEMIS repository.

The first is the read side of `LicenseOracle` (`ArtemisOracle.py`). It turns a
content identifier into the license status an on-chain registry holds for it:

- the hash normaliser, which turns raw bytes, `0x`-prefixed hex or bare hex into exactly 32 bytes;
- the canonical key, which is `"0x"` plus 64 lowercase hex digits;
- the `licenses` read with its error policy: the zero-address sentinel, reverts, re-raised
  logic errors, and swallowed faults that leave a warning;
- the `isRevokable` read;
- the status record built from both reads;
- the batch query, a dictionary keyed by canonical hash;
- the ABI check run when an oracle is built.

The registry is a fixed external service. Here it is a value holding the ABI and two total
functions from 32-byte keys to what a call produced: a return value, a contract-logic error with
its text, or any other failure.

The second part is the two loops of `ownerAssignment.py`. One hands out disjoint sets of
`"public_domain"` rows to the owners `alice`, `bob` and `chelsea`. The other hashes every row's
pixel bytes in chunks of 1000 rows. The frame's metadata columns are a class whose methods
update them in place.

Modules: `Wrappers` (Option, Result), `Hex` (`bytes.hex` / `bytes.fromhex`),
`RegistrySchema` (`_validate_registry`), `Oracle` (the rest of `LicenseOracle`) and
`Ownership` (the script's loops).

In these places the code does something a reader might not expect; the model follows the code:

- A `ContractLogicError` whose text lacks "execution reverted" is raised again by `get_license`.
  So status and batch queries are not total over well-formed input.
- A malformed hash inside `get_license`, `is_revokable` and `get_license_status` is not
  surfaced. It becomes the empty result plus a warning. Only `hash_to_bytes32` and the batch
  query (whose key computation is outside any `try`) raise it.
- The ABI check allows extra functions and ignores non-function entries. When two function
  entries share a name, the later one is the one checked.
- Uppercase hex digits are accepted, but only a lowercase `0x` prefix is stripped.

## Model

| member | source | states |
|---|---|---|
| `Hex.ToHex` | ArtemisOracle.py:103 | `bytes.hex()` writes two lowercase hex digits per byte |
| `Hex.FromHex` | ArtemisOracle.py:71-73 | `bytes.fromhex` succeeds exactly on an even number of hex digits (either case) and yields half as many bytes |
| `Hex.FromHexToHex` | ArtemisOracle.py:103 | decoding the hex text of any byte string gives the bytes back |
| `Hex.ToHexFromHex` | ArtemisOracle.py:71-73 | printing the bytes `bytes.fromhex` read gives the text back with every digit in lowercase, so text in any mix of cases decodes to the bytes of its lowercase form |
| `Hex.LowerHexIsPrinted` | ArtemisOracle.py:103 | lowercase hex text is exactly what `bytes.hex()` prints for the bytes it decodes to |
| `Hex.ToHexInjective` | ArtemisOracle.py:103 | different byte strings have different hex texts |
| `RegistrySchema.FunctionTable` | ArtemisOracle.py:46 | every entry the table holds is a function entry, filed under its own name |
| `RegistrySchema.FunctionTableKeys` | ArtemisOracle.py:46 | the name table holds exactly the names of entries of type "function" |
| `RegistrySchema.FunctionTableIsLastEntry` | ArtemisOracle.py:46 | for a duplicated name the table keeps the last function entry |
| `RegistrySchema.CheckFunction` | ArtemisOracle.py:49-57 | one required function passes exactly when it is present with the exact input and output type lists; a failure names it |
| `RegistrySchema.CheckAll` | ArtemisOracle.py:48-57 | the check passes iff every required function conforms; otherwise it reports the first failing one, in table order |
| `RegistrySchema.ValidateRegistry` | ArtemisOracle.py:37-57 | the ABI passes iff all four required functions conform; an error always names a required function, "missing" exactly when that name has no function entry, and an input or output mismatch only when it has one |
| `RegistrySchema.ValidateRegistryIff` | ArtemisOracle.py:39-57 | the ABI passes iff each of `licenses`, `registerImage`, `revokeImage`, `isRevokable` has a last function entry with exactly the listed types |
| `RegistrySchema.MissingLicensesReportedFirst` | ArtemisOracle.py:48-50 | an ABI without a `licenses` function fails with "missing `licenses`" |
| `RegistrySchema.NonFunctionEntriesIgnored` | ArtemisOracle.py:46 | inserting a non-function entry anywhere never changes the verdict |
| `RegistrySchema.ExtraFunctionsAllowed` | ArtemisOracle.py:46-57 | appending a function with any other name never changes the verdict |
| `Oracle.NewLicenseOracle` | ArtemisOracle.py:11-22 | an oracle is built exactly when every required function conforms; otherwise the schema error is raised |
| `Oracle.HexPayload` | ArtemisOracle.py:69-73 | the text handed to `bytes.fromhex` is the input with exactly two characters dropped when it starts with lowercase `0x`, and the whole input otherwise |
| `Oracle.NormalizeHashInput` | ArtemisOracle.py:59-78 | bytes pass iff they are 32 long and come back unchanged; text passes iff the hex decoding of its payload (lowercase `0x` stripped) is 32 bytes; failures are the hex or length `ValueError` |
| `Oracle.HashToBytes32` | ArtemisOracle.py:92-103 | fails exactly when normalisation fails; otherwise gives `"0x"` plus 64 lowercase hex digits of the normalised bytes |
| `Oracle.NormalizedTextShape` | ArtemisOracle.py:69-76 | accepted text is `0x` plus 64 hex digits, or 64 hex digits not starting with `0x` |
| `Oracle.UpperPrefixRejected` | ArtemisOracle.py:70-73 | a `0X` prefix is decoded whole and always fails with the hex error |
| `Oracle.WrongLengthRejected` | ArtemisOracle.py:75-76 | bytes of any length other than 32 fail with the length error |
| `Oracle.NormalizeRoundTrip` | ArtemisOracle.py:69-78 | the canonical text, the bare digits and the raw bytes of 32 bytes all normalise to those bytes |
| `Oracle.SameBytesSameKey` | ArtemisOracle.py:92-103 | bytes, `0x` form and bare-hex form of the same 32 bytes give the same canonical key |
| `Oracle.HashToBytes32Idempotent` | ArtemisOracle.py:92-103 | feeding the canonical key back in returns the same key |
| `Oracle.CanonicalKeyInjective` | ArtemisOracle.py:92-103 | two inputs share a key iff they normalise to the same bytes |
| `Oracle.TextKeyIsLowercased` | ArtemisOracle.py:69-73 | the key of accepted text is `0x` plus its digits, prefix stripped, in lowercase |
| `Oracle.CanonicalTextIsItsKey` | ArtemisOracle.py:92-103 | `0x` followed by 64 lowercase digits is its own key |
| `Oracle.Contains` | ArtemisOracle.py:126 | the `in` test on the error text holds iff the marker occurs at some position of the text |
| `Oracle.ReadLicense` | ArtemisOracle.py:115-132 | a malformed hash gives the normaliser's error; otherwise, for the `licenses` call on the normalised bytes, a returned record with a non-zero owner is registered unchanged, the zero-address owner means unregistered, a logic error is a revert iff its text contains "execution reverted" (otherwise it is re-raised with the same text), and any other failure is kept with its text |
| `Oracle.GetLicense` | ArtemisOracle.py:105-132 | raises only for a logic error without "execution reverted"; returns the record unchanged iff it has a non-zero owner, otherwise the all-None tuple; warns exactly for a malformed hash or a non-logic failure |
| `Oracle.IsLicensed` | ArtemisOracle.py:134-137 | true iff a record with a non-zero owner exists and is not revoked; raises exactly when `get_license` does |
| `Oracle.IsRevokable` | ArtemisOracle.py:139-146 | true iff the hash normalises and the registry returns true; any exception gives false with one warning |
| `Oracle.GetLicenseStatus` | ArtemisOracle.py:163-173 | raises exactly when `get_license` raises, with the same error |
| `Oracle.StatusMeaning` | ArtemisOracle.py:165-168 | `exists` iff a registered record was read, iff the owner is present; `valid` iff exists and not revoked |
| `Oracle.AbsentStatusIgnoresRevokability` | ArtemisOracle.py:172 | without a registered record the status is the empty one, and replacing the `isRevokable` read changes nothing, so it is never consulted |
| `Oracle.RegisteredStatus` | ArtemisOracle.py:163-173 | a registered record gives owner, license, revoked from the record, `registered_at` absent iff the timestamp is 0, and `revokable` from the registry |
| `Oracle.StatusAgreesWithIsLicensed` | ArtemisOracle.py:134-137 | `valid` equals `is_licensed`, and both raise together |
| `Oracle.FaultDegradesToAbsent` | ArtemisOracle.py:130-132 | a transport fault yields the empty status plus one warning, not an exception |
| `Oracle.StatusDependsOnlyOnBytes` | ArtemisOracle.py:163-173 | inputs that normalise to the same bytes get the same status |
| `Oracle.BatchCheckLicenses` | ArtemisOracle.py:175-177 | a successful batch has at most as many entries as inputs; a failed batch raises only a hex error, a length error or a re-raised logic error |
| `Oracle.BatchOkIff` | ArtemisOracle.py:175-177 | the batch succeeds iff every input has a key and a status that does not raise |
| `Oracle.BatchErrIsFirstFailure` | ArtemisOracle.py:175-177 | a failed batch raises the exception of the first input, in list order, that does not resolve: its key's exception if the key fails, otherwise its status's |
| `Oracle.BatchStep` | ArtemisOracle.py:177 | adding one input keeps the batch successful iff that input resolves |
| `Oracle.MalformedInputAbortsBatch` | ArtemisOracle.py:177 | one input that cannot be normalised makes the whole batch raise |
| `Oracle.BatchEntry` | ArtemisOracle.py:177 | in a successful batch, each input's canonical key maps to that input's own status |
| `Oracle.BatchKeysFromInputs` | ArtemisOracle.py:177 | every key of a successful batch is the canonical key of some input |
| `Ownership.OwnerOf` | ownerAssignment.py:32-56 | a row stays `"public_domain"` iff no selection holds it; otherwise its owner is the owner of a selection holding it |
| `Ownership.OwnerOfSelected` | ownerAssignment.py:55-56 | with disjoint selections, a row in owner `k`'s selection ends up owned by owner `k` |
| `Ownership.AssignStep` | ownerAssignment.py:48-59 | one clipped, non-empty draw without replacement keeps the selections disjoint and in bounds, and the new pool is the old pool minus the draw |
| `Ownership.StepKeepsDisjoint` | ownerAssignment.py:55-59 | a draw taken from the pool is disjoint from every earlier selection |
| `Ownership.LastDrawClipped` | ownerAssignment.py:48-49 | a draw smaller than its drawn count took every row still in the pool |
| `Ownership.MetadataFrame.constructor` | ownerAssignment.py:32-34 | every row starts public domain, not revoked, with an empty hash |
| `Ownership.MetadataFrame.AssignOwners` | ownerAssignment.py:36-64 | the selections are at most one per owner, hold 1 to 3 distinct rows each, never more than the count drawn for that owner and fewer only when the pool runs out, and are pairwise disjoint; stopping early means every row was handed out; exactly the rows some selection holds leave `"public_domain"`, each to the owner of a selection holding it (the owner of its only selection, by `OwnerOfSelected`); other columns are unchanged |
| `Ownership.ComputeHashChunk` | ownerAssignment.py:67-68 | one `hexdigest()` per row of the chunk, in order: 64 lowercase hex digits that decode to that row's SHA-256 digest |
| `Ownership.Chunks` | ownerAssignment.py:76-77 | there are as many chunks as steps of `range(0, total_rows, chunk_size)`: `(count - 1) * chunk_size < total_rows <= count * chunk_size` when there are rows, none otherwise |
| `Ownership.ChunksTile` | ownerAssignment.py:76-77 | the chunks are non-empty, at most `chunk_size` long, consecutive, and run from 0 to `total_rows` |
| `Ownership.RowInOneChunk` | ownerAssignment.py:76-78 | every row lies in exactly one chunk |
| `Ownership.HashInChunks` | ownerAssignment.py:71-80 | the loop visits exactly those chunks, and the hash list has `total_rows` entries, entry `i` being the digest of row `i` |
| `Ownership.MetadataFrame.ComputeContentHashes` | ownerAssignment.py:83 | the `content_hash` column holds each row's digest; owner and revoked columns are unchanged |

## Left out

- Network connection, ABI file loading and `Contract.from_abi` (ArtemisOracle.py:18-35). These are I/O and a foreign library. The oracle is built from a registry value that carries its ABI.
- ABI parameters are reduced to their `type` strings. The `KeyError`s the source can raise while checking the ABI are not modelled: a missing `type` on any entry (ArtemisOracle.py:46), a missing `name` on a `function` entry (line 46), and a missing `inputs`, `outputs` or parameter `type` on a required function the check reaches (lines 54 and 56). Other entries, such as constructors, events and errors, need none of these keys besides `type`.
- SHA-256 (`hash_image`, `image_file_to_hash`, `hashlib.sha256` in `compute_hash_chunk`) is a parameter function from bytes to 32 bytes. File reading is not modelled.
- `datetime.fromtimestamp(...).isoformat()` depends on the local time zone and can raise for huge values. `registeredAt` keeps the epoch seconds, or nothing when the timestamp is 0.
- Warning texts are not modelled. Each warning is recorded as a `Warning` value in the result.
- `Oracle.BatchCheckLicenses`: when the batch raises part-way, the warnings already logged for earlier inputs are not part of the `Err` result. The log is modelled as part of the returned value, so it ends with the exception.
- `Hex.FromHex`: `bytes.fromhex` also skips ASCII whitespace between byte pairs. The model treats whitespace as a non-hex character.
- Exceptions other than the ones the source names are not modelled, such as a `licenses` tuple of the wrong shape.
- The registry's own logic (registration uniqueness, revocation rules) and the write transactions `registerImage` / `revokeImage` are not part of this model.
- Randomness in `ownerAssignment.py`: `np.random.randint` is the `draws` parameter and `np.random.choice(..., replace=False)` is the `choice` parameter. Each is constrained to what those calls can return.
- The pool is a set. The source rebuilds it as a list from a set difference, so its order is arbitrary and only matters to the random choice.
- `Ownership.MetadataFrame.AssignOwners` writes the owner column once, after the loop, instead of on each iteration. No reader sees the column in between.
- pandas / `datasets` conversion, memory logging, the `logger.warning` on the early exit (ownerAssignment.py:51), tqdm, the column check (ownerAssignment.py:84-90) and `save_to_disk` are I/O or plumbing.
- The `is_revoked` column is only initialised to false by the script and is not modelled further.
- `preprocess.py`, `training.py`, `src/`, `scripts/deploy.py` and `main.py` are not part of this model: they are downloads, ML numerics, web3 transactions and driver glue.
