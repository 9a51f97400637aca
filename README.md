# ODM in Dafny: hashing, paths and the `odm-list` driver

ODM moves a user's OneDrive to another Microsoft 365 tenant. The metadata
tool first saves a snapshot of the drive: every item keyed by id, with its
name, its parent link, its file/folder/package facets, its declared
QuickXorHash and its sharing permissions. `odm-list` then works through
that snapshot. It can download every file into a local tree or estimate the
download. It can list the file names, verify the local copies against the
declared size and hash, remove local files the snapshot no longer names,
and upload the tree to another account (or verify an earlier upload),
replaying each file's sharing permissions with the e-mail domains mapped.

This project models that core and proves what it promises:

- `QuickXor` (`quickxorhash.dfy`): OneDrive's 160-bit QuickXorHash.
  - A `QuickXorHash` class with its `cell` array, `shifted` cursor and
    `length` counter.
  - `Update`, `Finalize` and `HashFile` are proved against a reference
    definition that places byte *k* at bit `(shifted + 11k) mod 160`.
  - Chunking does not matter: `update(a); update(b)` equals `update(a+b)`.
  - The nested XOR loops compute the column fold: bytes whose offsets differ
    by a multiple of 160 land on the same bits.
  - The digest is the base64 of a 20-byte buffer, with the length XORed
    into its last eight bytes.
- `Bits` and `Base64`: bytes and 64-bit words as bit sequences, least
  significant bit first. Packing is little-endian, which is what
  `struct.pack('Q')` produces on a little-endian machine. Base64 follows section 4 of RFC 4648, and decoding is proved to
  undo encoding.
- `OdmUtil` (`odm_util.dfy`):
  - `chunky_path` splits a name into maximal pieces of at most 255 UTF-8
    bytes. Byte lengths follow section 3 of RFC 3629.
  - `ChunkyFile` is a class whose reads hand out a bounded window of a file
    and close the file when the window is used up.
- `Metadata`: the snapshot's items and the walk up the `parentReference`
  links.
- `OneDrive` (`onedrive_client.dfy`): `expand_path`, `verify_file`,
  `mangle_user` and the paging of `get_list`.
- `OdmListOptions`: the string handling `odm-list` applies to its options:
  `split`, `lower`, `rstrip`, the `--domain-map` table and the `--diff`
  verification arguments.
- `OdmListUpload`: the upload / verify-upload pass for one file. It
  collects the unresolved ancestors and resolves each into a remote folder
  or notebook, or marks it `'skip'` or `'failed'`. Then it uploads or
  verifies the file, replays the permissions and prunes the processed
  leaf.
- `OdmList`: `main` of `odm_list.py`.
  - Setup: the exclude list and the upload destination.
  - The per-item filter, the three-attempt download, and the verify,
    upload and list branches.
  - The size and count totals, `clean-filetree` as a set difference, and
    the exit status.

The Microsoft 365 objects (`User`, `Group`, `drive`, `get_folder`,
`get_notebook`, `upload_file`, `verify_file`, `share`) and
`client.download_file` are oracles. They are functions fixed in advance,
carried in `OdmListUpload.Library` and `OdmList.World`. The local file
system is a map from path to content. The `clean-filetree` walk is a list
of (directory, file) pairs.

The code lowercases only the `--domain-map` table
(`odm/libexec/odm_list.py:77`). The domain taken from a permission's e-mail
address is looked up as it stands (line 247), so a domain written with a
capital letter is not rewritten. `OdmListUpload.Grantee` does the same.

`odm_list.py` runs under Python 2. Its options and the lines of the
exclude file are byte strings. The item names, the paths built from them
and the permission addresses come from `json.load` and are unicode
strings. Python 2 converts between the two through ASCII, and the model
follows it with `OdmListOptions.Ascii`:

- An exclude line equals an item path only when the path is ASCII.
- A non-ASCII `--limit` raises at line 96 for a file with a parent. A
  file without a parent id has the byte-string path `'/'`
  (`odm/onedriveclient.py:101-104`), which never needs the conversion.
- A non-ASCII `--filetree` raises at line 109 for a selected file with a
  parent, for the same reason.
- A permission address with a non-ASCII character raises at line 251.

## Model

| member | source | states |
|---|---|---|
| QuickXor.QuickXorHash.constructor | util/quickxorhash.py:13-21 | a fresh hasher has three zero cells, cursor 0 and length 0 |
| QuickXor.QuickXorHash.Update | util/quickxorhash.py:23-55 | the new state is the reference absorption of `data` at the old cursor; the cursor moves 11·len mod 160 and the length grows by len |
| QuickXor.QuickXorHash.XorColumns | util/quickxorhash.py:24-51 | the nested column loops leave the cells equal to the byte-at-a-time reference absorption |
| QuickXor.QuickXorHash.FoldColumn | util/quickxorhash.py:37-39 | `new_byte` is the XOR of every byte at an offset congruent to i modulo 160 |
| QuickXor.QuickXorHash.XorIn | util/quickxorhash.py:43-51 | XORing one folded byte at (cell_index, cell_bitpos), with the spill into the next cell, adds exactly that column to the fold, and the cursor stays inside its cell |
| QuickXor.QuickXorHash.Finalize | util/quickxorhash.py:57-74 | the result is the digest of the current state |
| QuickXor.QuickXorHash.PackCells | util/quickxorhash.py:58-65 | the buffer is cell 0 and cell 1 as 8 little-endian bytes each, then the low 4 bytes of cell 2 |
| QuickXor.QuickXorHash.XorLength | util/quickxorhash.py:67-72 | bytes 0..11 are unchanged and bytes 12..19 are XORed with the 8 little-endian length bytes |
| QuickXor.QuickXorHash.HashFile | util/quickxorhash.py:76-83 | feeding the file in 65536-byte reads leaves the state the reference gives for the whole content |
| QuickXor.UpdateSpec | util/quickxorhash.py:53-55 | an update keeps the cursor inside [0,160) |
| QuickXor.UpdateConcat | util/quickxorhash.py:23-55 | update(a) then update(b) gives the same state as update(a+b) |
| QuickXor.AbsorbConcat | util/quickxorhash.py:23-55 | absorbing a+b is absorbing a, then b from the advanced cursor |
| QuickXor.AbsorbIsFolded | util/quickxorhash.py:27-39 | the byte-at-a-time absorption equals the 160-column XOR fold placed at the cursor |
| QuickXor.AdvanceAdd | util/quickxorhash.py:53-54 | moving the cursor by a, then by b, is moving it by a+b |
| QuickXor.AdvanceMod | util/quickxorhash.py:53 | only the length modulo 160 moves the cursor |
| QuickXor.PlaceLinear | util/quickxorhash.py:43-46 | placing a XOR b is placing a and placing b |
| QuickXor.Digest | util/quickxorhash.py:57-74 | a digest exists exactly when the length fits 64 bits, and it has 28 characters |
| QuickXor.DigestDecodes | util/quickxorhash.py:74 | decoding the digest gives back the 20-byte buffer |
| QuickXor.PackedPrefixes | util/quickxorhash.py:60-65 | the packed buffer is cell 0, then cell 1, then 4 bytes of cell 2 |
| QuickXor.EmptyDigest | util/quickxorhash.py:13-21 | a fresh hasher's digest is 27 'A' followed by '=' |
| QuickXor.ZeroBuffer | util/quickxorhash.py:57-72 | zero cells and zero length give a buffer of twenty zero bytes |
| QuickXor.CursorStep | util/quickxorhash.py:28-35 | after each byte the cursor moves 11 bits, wrapping into the next cell (the last cell is 32 bits) and staying in bounds |
| Bits.LittleEndianRoundTrip | util/quickxorhash.py:61 | a value below 256^n packed into n little-endian bytes reads back unchanged |
| Bits.OctetsAreLittleEndian | util/quickxorhash.py:61 | the bytes of a 64-bit word are its little-endian bytes |
| Bits.FromValueOfValue | util/quickxorhash.py:43 | a bit string is recovered from its value and length |
| Bits.ShiftLeftXor | util/quickxorhash.py:43 | the masked left shift distributes over XOR |
| Base64.Encode | util/quickxorhash.py:74 | base64 text has 4 characters per 3 bytes, rounded up |
| Base64.DecodeEncode | util/quickxorhash.py:74 | decoding the encoding of any bytes gives them back |
| Base64.DecodeEncodeValues | util/quickxorhash.py:74 | the same for octet values, group by group with padding |
| Base64.EncodeZeros | util/quickxorhash.py:74 | twenty zero bytes encode as 27 'A' and '=' |
| OdmUtil.ChunkyPath | odm/util.py:30-43 | the loop returns the pieces of the name |
| OdmUtil.LongestPrefix | odm/util.py:35-38 | the inner search finds the longest prefix of at most 255 UTF-8 bytes, and it is non-empty and proper |
| OdmUtil.PiecesConcat | odm/util.py:30-43 | the pieces concatenate back to the name |
| OdmUtil.PiecesFit | odm/util.py:32 | every piece is at most 255 UTF-8 bytes |
| OdmUtil.PiecesMaximal | odm/util.py:35-39 | every piece but the last cannot take one more character without exceeding 255 bytes |
| OdmUtil.ShortNameIsOnePiece | odm/util.py:32-41 | a name of at most 255 bytes is left whole |
| OdmUtil.FitIsLongest | odm/util.py:35-38 | the cut point is within budget, and one more character would exceed it |
| OdmUtil.FitUnique | odm/util.py:35-38 | any in-budget index whose next character overflows is the cut point |
| OdmUtil.EncodedLengthConcat | odm/util.py:32 | the UTF-8 length of a concatenation is the sum of the lengths |
| OdmUtil.Utf8Len | odm/util.py:32 | a code point takes 1 to 4 bytes |
| OdmUtil.FileRead | odm/util.py:22 | a read returns the next bytes of the file, as many as asked or up to the end |
| OdmUtil.ChunkyFile.constructor | odm/util.py:11-15 | the reader starts at `start` with counter 0, limit `size`, open, nothing delivered |
| OdmUtil.ChunkyFile.Read | odm/util.py:17-27 | after the limit is reached it returns nothing; otherwise it returns min(size, len - counter) bytes or what is left; the bytes delivered so far are always the file window from `start`; the file closes exactly when the counter reaches the limit |
| OdmUtil.WindowGrows | odm/util.py:22-23 | reading on from the end of the window extends the window |
| Metadata.LineageOf | odm/onedriveclient.py:92-101 | a finished walk ends at a root item, passing only items of the snapshot, with the start item last |
| Metadata.LineageLinked | odm/onedriveclient.py:92-101 | consecutive items of a walk are parent and child |
| Metadata.LineageFuel | odm/onedriveclient.py:92-101 | once a walk has ended, more steps change nothing |
| Metadata.TerminatesWithout | odm/libexec/odm_list.py:258-259 | pruning an item cannot make any walk endless |
| OneDrive.ExpandPath | odm/onedriveclient.py:89-105 | the loop returns the path the walk spells (None on a missing parent key): names root-first joined by '/', or "/" for the root, each name split into pieces when fs_safe |
| OneDrive.RootPath | odm/onedriveclient.py:102-105 | the root's path is "/" |
| OneDrive.ChildPath | odm/onedriveclient.py:92-104 | a child of the root has its bare name as path; a deeper item has its parent's path, '/', then its name |
| OneDrive.SafePathOfShortNames | odm/onedriveclient.py:95-100 | when no name exceeds 255 bytes, the fs-safe path equals the plain path |
| OneDrive.ReverseReverse | odm/onedriveclient.py:97-103 | reversing twice restores the list |
| OneDrive.SegmentsEmpty | odm/onedriveclient.py:102-105 | the path is empty exactly when no names were collected |
| OneDrive.VerifyFile | odm/onedriveclient.py:107-129 | true iff the file exists, it is not a strict check given neither size nor hash, its size matches a given size, and its QuickXorHash matches a given non-empty hash |
| OneDrive.VerifyFileAsWritten | odm/onedriveclient.py:122-127 | with the hasher's hash_file returning nothing, any non-empty declared hash makes verification fail |
| OneDrive.HashCheckDiscrepancy | odm/onedriveclient.py:122-127 | a file with its true size and hash passes VerifyFile but fails VerifyFileAsWritten |
| OneDrive.NonStrictExistence | odm/onedriveclient.py:107-114 | without size or hash, a non-strict check is existence and a strict check fails |
| OneDrive.MangleUser | odm/onedriveclient.py:35-40 | None for an empty name; a name holding '@' is kept; otherwise '@' and the domain are appended |
| OneDrive.MangleIdempotent | odm/onedriveclient.py:35-40 | mangling twice is mangling once |
| OneDrive.GetList | odm/onedriveclient.py:42-73 | the loop returns the paged fetch, requesting the path and then each page's next link in turn |
| OneDrive.FetchConcatenates | odm/onedriveclient.py:59-70 | over a run of pages, the result's value is all the pages' values in order |
| OdmListOptions.Split | odm/libexec/odm_list.py:77-78 | split gives at least one part, and no part holds the separator |
| OdmListOptions.SplitJoin | odm/libexec/odm_list.py:77-78 | joining the parts with the separator gives the string back |
| OdmListOptions.JoinSplit | odm/libexec/odm_list.py:77-78 | splitting a join of separator-free parts gives the parts back |
| OdmListOptions.SplitCount | odm/libexec/odm_list.py:246 | split gives one part more than there are separators |
| OdmListOptions.Lower | odm/libexec/odm_list.py:77 | lowercasing keeps the length |
| OdmListOptions.RStrip | odm/libexec/odm_list.py:42 | the result is a prefix; everything dropped is whitespace; it does not end in whitespace |
| OdmListOptions.RStripIdempotent | odm/libexec/odm_list.py:42 | stripping twice is stripping once |
| OdmListOptions.RStripChar | odm/libexec/odm_list.py:32 | rstrip('/') drops exactly the trailing slashes |
| OdmListOptions.PairSplitsAtColon | odm/libexec/odm_list.py:78 | a mapping unpacks exactly when it holds one ':', into the text around it |
| OdmListOptions.DomainMapFails | odm/libexec/odm_list.py:77-79 | building the table raises exactly when some mapping does not unpack |
| OdmListOptions.DomainMapKeys | odm/libexec/odm_list.py:77-79 | the table's keys are exactly the mappings' sources |
| OdmListOptions.DomainMapLastWins | odm/libexec/odm_list.py:79 | a source maps to the target of its last mapping |
| OdmListOptions.ParseDomainMap | odm/libexec/odm_list.py:76-79 | an empty option gives an empty table; otherwise the lowercased option is split on ',' and mapped |
| OdmListOptions.VerifyArguments | odm/libexec/odm_list.py:115-121 | size is passed exactly when no --diff is given or it names size; the hash is passed exactly when no --diff is given or it names hash |
| OdmListOptions.DiffScopesVerification | odm/libexec/odm_list.py:115-125 | with these arguments, verification checks existence and only the facets --diff names |
| OdmListUpload.CollectSteps | odm/libexec/odm_list.py:160-169 | the climb returns the unresolved ancestors root-first; an unresolved root receives upload_path; a missing parent raises |
| OdmListUpload.ClimbShape | odm/libexec/odm_list.py:160-169 | collected steps are unresolved snapshot items, each the parent of the next, ending at the item and hanging from a resolved item or the root |
| OdmListUpload.ClimbFromNothingResolved | odm/libexec/odm_list.py:163-169 | with nothing resolved, the steps are the whole lineage under the root |
| OdmListUpload.Resolve | odm/libexec/odm_list.py:172-231 | a step under 'skip'/'failed' inherits it with no call and no retval; a None parent raises exactly when a call is due; every `continue` leaves a sentinel; a step that goes on holds a remote object or None (only a verified leaf holds nothing); 'failed' comes from a failed parent, a missing verified folder or notebook, or a failed upload (which sets retval) |
| OdmListUpload.Grantee | odm/libexec/odm_list.py:246-253 | an address unpacks and formats exactly when it holds one '@' and is ASCII; the user part is kept and the domain rewritten through the table |
| OdmListUpload.Replayable | odm/libexec/odm_list.py:237-244 | only non-link, non-owner permissions are replayed |
| OdmListUpload.SharesSucceed | odm/libexec/odm_list.py:236-254 | the replay raises exactly when a replayed permission has no address, an address without exactly one '@', a non-ASCII address, or the target is not a remote object |
| OdmListUpload.SharesReplayable | odm/libexec/odm_list.py:236-254 | a successful replay makes one share call per replayable permission, in order, to the mapped address with the same roles |
| OdmListUpload.ReplayPermissions | odm/libexec/odm_list.py:237-254 | the loop makes the share calls of the replay |
| OdmListUpload.StepOutcome | odm/libexec/odm_list.py:171-259 | a step only ever removes itself from the snapshot (leaf clear), keeps every walk finite, and only appends remote calls |
| OdmListUpload.ProcessStep | odm/libexec/odm_list.py:172-259 | one step computes its outcome |
| OdmListUpload.ProcessSteps | odm/libexec/odm_list.py:171 | the steps run in order |
| OdmListUpload.SentinelPropagates | odm/libexec/odm_list.py:175-183 | below an item marked 'skip' or 'failed', every step takes the mark, with no remote call, no retval and no pruning |
| OdmListUpload.UploadItem | odm/libexec/odm_list.py:160-259 | one file's upload pass: collect its steps, then run them |
| OdmList.SelectedIff | odm/libexec/odm_list.py:84-104 | an item is worked on exactly when it is a file, its path exists, no exclude line equals it (only an ASCII path can be equal), it starts with the --limit when one is given and that limit is ASCII, and it is not malware; a non-ASCII --limit raises exactly for the files with a parent whose path exists and is not excluded |
| OdmList.SafePathExists | odm/libexec/odm_list.py:89-109 | the fs-safe path exists exactly when the plain path does |
| OdmList.DeclaredHash | odm/libexec/odm_list.py:111-113 | no hashes give no digest; hashes without quickXorHash raise; otherwise the digest is that hash |
| OdmList.DownloadWithRetry | odm/libexec/odm_list.py:129-143 | 1 to 3 attempts; every earlier attempt came back missing or with the wrong hash; success returns an accepted result; failure means all three attempts failed |
| OdmList.SelectedOutcome | odm/libexec/odm_list.py:106-107 | a selected item adds its size and one to the count, and is recorded as worked |
| OdmList.ProcessItem | odm/libexec/odm_list.py:84-262 | one iteration of the item loop computes the item's outcome |
| OdmList.WorkOn | odm/libexec/odm_list.py:106-262 | a selected item is downloaded, verified, uploaded or listed per the action |
| OdmList.RunItems | odm/libexec/odm_list.py:84 | the loop runs the items in order |
| OdmList.ItemConsistent | odm/libexec/odm_list.py:106-107 | size and count stay the sum and number of the items worked |
| OdmList.RunConsistent | odm/libexec/odm_list.py:106-107 | after the loop, size is the sum of the worked items' sizes and count their number |
| OdmList.ItemReadOnly | odm/libexec/odm_list.py:84-157 | outside uploads an item crashes exactly when its path has a missing parent, it has a parent and the --limit is not ASCII, or it is selected and either has a parent with a non-ASCII destination directory or hashes lacking quickXorHash; otherwise only retval, the worked list and the printed list change |
| OdmList.ParentlessFileRaises | odm/libexec/odm_list.py:89-113 | a file without a parent id (path '/', a byte string) raises only when it is selected and its hashes lack quickXorHash: neither --limit nor --filetree can make it raise |
| OdmList.RunReadOnlyRaises | odm/libexec/odm_list.py:84-262 | outside uploads the loop crashes exactly when some item raises (a missing parent, a non-ASCII --limit for a file with a parent, a non-ASCII destination directory for a selected file with a parent, or no quickXorHash) |
| OdmList.RunReadOnlyPass | odm/libexec/odm_list.py:141-157 | outside uploads retval is 1 exactly when some item's download or verification fails |
| OdmList.RunReadOnlyWorked | odm/libexec/odm_list.py:84-107 | outside uploads the worked items are the selected ones, in order |
| OdmList.RunReadOnlyPrinted | odm/libexec/odm_list.py:261-262 | list-filenames prints the selected paths in order, and the other actions print nothing |
| OdmList.Descend | odm/libexec/odm_list.py:67-70 | walking --upload-path ends at a folder or None, with at most one get_folder per token, all with the action's create flag |
| OdmList.DescendFromMissing | odm/libexec/odm_list.py:69 | once the walk reaches None, the remaining tokens make no call |
| OdmList.DescendPath | odm/libexec/odm_list.py:67-70 | the loop walks the path |
| OdmList.UploadConfigExits | odm/libexec/odm_list.py:44-79 | with neither user nor group it exits; a configured upload has a drive, verify-upload has a real folder, and every setup call is a get_folder with create iff uploading |
| OdmList.ConfigureUpload | odm/libexec/odm_list.py:44-79 | the setup computes the upload configuration |
| OdmList.FullPathsComplete | odm/libexec/odm_list.py:274 | the path list raises exactly when some file's path is broken; otherwise it holds exactly the files' fs-safe paths |
| OdmList.CollectFullPaths | odm/libexec/odm_list.py:274 | the comprehension collects the file paths |
| OdmList.RelPath | odm/libexec/odm_list.py:276-280 | a file at the top is its bare name; elsewhere it is dir/name |
| OdmList.Removed | odm/libexec/odm_list.py:275-284 | a local file is removed exactly when its relative path is not a snapshot path |
| OdmList.CleanTree | odm/libexec/odm_list.py:275-284 | the walk removes those files |
| OdmList.ExcludeList | odm/libexec/odm_list.py:39-42 | the exclude list is the file's lines, each right-stripped |
| OdmList.RunCommand | odm/libexec/odm_list.py:21-290 | the command computes its outcome |
| OdmList.ParseAction | odm/libexec/odm_list.py:34-288 | an action name is refused exactly when it is none of the eight names main tests; every name parses to an action that carries that name |
| OdmList.ParseActionName | odm/libexec/odm_list.py:34-288 | each action main distinguishes is selected by its own name |
| OdmList.FinishedReportsRetval | odm/libexec/odm_list.py:27-290 | a finished run exits 1 exactly when some failure set retval, else 0, and its totals are consistent |
| OdmList.DestDirAscii | odm/libexec/odm_list.py:32-109 | the destination directory joins the unicode paths without an error exactly when --filetree is absent, empty or ASCII |
| OdmList.ReadOnlyCommand | odm/libexec/odm_list.py:38-290 | download, estimate, list and verify crash exactly when an item raises (a missing parent, a non-ASCII --limit for a file with a parent, a non-ASCII --filetree for a selected file with a parent, or no quickXorHash); otherwise they exit 1 iff some item failed, with totals over the selected items and nothing uploaded |
| OdmList.CleanRemovesUnlisted | odm/libexec/odm_list.py:273-284 | clean-filetree crashes exactly when no --filetree is given (`os.walk(None)` raises) or a file path is broken; otherwise it removes exactly the local files no snapshot file maps to |

## Left out

- Reading the metadata JSON, the exclude file and the configuration, logging, `print`, and `sys.exit`. These become inputs and an `Outcome` value.
- `convert-notebooks` (`odm/libexec/odm_list.py:34-36`) is modelled as exiting with status 0. The notebook conversion it calls, which is not part of this model, is not modelled.
- `os.utime` with the dateutil timestamp after a download (lines 145-150). A download does not change the modelled file system either: verification looks only at the files present when the command starts.
- The estimate and elapsed-time message (lines 264-271): floating point and the clock. Size and count are modelled exactly.
- The ms365 objects and `download_file` are functions fixed in advance. Apart from the `TypeError` that lines 193 and 207 catch, they never raise, and their results do not depend on earlier calls.
- A link permission without a `scope` key raises `KeyError` at line 239. In the model, link permissions are always skipped.
- `unicode(relfpath, 'utf-8')` (line 281): local names are already text in the model, so the UTF-8 decoding that can raise is left out.
- The item loop runs over `World.order`, which is taken to list the snapshot's ids, each once.
- OdmList.ProcessItem: requires every parent walk in the snapshot to end. The source loops forever on a cycle of parent links.
- OneDrive.ExpandPath: requires the same finite walks, for the same reason.
- OdmListUpload.UploadItem: requires the same finite walks, for the same reason.
- QuickXor.Digest: a total length of 2^64 bytes or more is modelled as no digest, where `struct.pack('Q')` would raise.
- OdmUtil.ChunkyFile.constructor: seeking to a negative start is not modelled (`start` is a `nat`).
- OneDrive.GetList: requires some response to be a final page (a redirect, a 404 or a page without a next link). A server that always sends one more page makes the source loop forever.
- OdmUtil.ChunkyFile.Read: the read is not split into short reads at the operating-system level. A read returns everything asked for that the file holds.
- OneDrive.GetList: the HTTP session, `raise_for_status` other than as an error code, and keys outside `value` and `@odata.nextLink` are abstracted into the `Response` datatype.
- The verify-upload branch for a missing remote folder marks it `'failed'` without setting the exit status (lines 213-215), unlike the notebook branch (lines 199-202). Its descendants then fail silently. The model keeps this as written.
- `odm/onedriveclient.py:15` imports an `odm.quickxorhash` module that is not part of this model. In its place, verification uses the hasher of `util/quickxorhash.py` with `hash_file` returning `finalize()` (see Findings).
- The model takes `odm_list.py` to run under Python 2, with byte-string options and exclude lines and unicode metadata strings, converted through ASCII as described above. `lower()` and `rstrip()` act on ASCII. The modules it imports carry python3 shebangs (`odm/cli.py:1`, `odm/onedriveclient.py:1`). Under Python 3 the model would be wrong in three places:
  - The exclude lines, read as bytes at lines 40-42, never equal a str item path, so no item would ever be excluded. `OdmList.SelectedIff`'s exclusion would not hold.
  - `unicode(...)` at line 281 raises `NameError`. `OdmList.CleanRemovesUnlisted` would crash on the first walked file rather than only on a broken snapshot path.
  - `base64.b64encode` returns bytes, which `verify_file` would compare with the str hash from the metadata, so no hash would ever match.
- OdmList.UploadConfigExits: the container address of lines 50 and 53 is formed as text. In Python 2 `'{}@{}'.format` raises when the configured domain is a non-ASCII unicode string, and that error is not modelled.
- `print(item_path)` at line 262 can raise in Python 2 for a non-ASCII path when the output's encoding cannot hold it. Output is not modelled.
- `struct.pack('Q', …)` (`util/quickxorhash.py:61` and `:68`) uses the machine's native byte order. The model packs little-endian, so it describes the digest on little-endian machines only.

## Findings

| source | as written | input that shows it | evidently intended | confidence | as-written member | corrected member |
|---|---|---|---|---|---|---|
| util/quickxorhash.py:76-83 | `hash_file` feeds the file to `update` and has no `return`, so it returns None; `verify_file` (odm/onedriveclient.py:122-127) compares that None with the declared hash | any existing file with its correct size and its correct non-empty QuickXorHash: the check reports a wrong hash | `hash_file` returns `self.finalize()`, so the file passes exactly when its content hashes to the declared value | medium, not executed. The failure of `verify_file` follows only if the `odm.quickxorhash` module it imports has the same missing `return`; `odm/quickxorhash.py` is not part of this model | OneDrive.VerifyFileAsWritten, OneDrive.HashCheckDiscrepancy | OneDrive.VerifyFile |
