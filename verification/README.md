# BitTorrent engine and version order: a verified model

This project models the BitTorrent engine in `wubi/src/bittorrent` and the version comparison of
`2.10/tools/opkg-utils/opkg-compare-versions.c`, and proves what they rely on without saying so.

- **Storage** lays several files end to end as one byte array and reads and writes stretches of it.
- **Placement**, **Blocks**, **Scan** and **StorageWrapper** keep pieces in whatever slot is free while
  downloading, move them into order, account for every block that is open, asked for or received, and
  find what is already on disk at start-up. SHA is a function of which nothing is assumed, so the results
  hold even if hashes collide.
- **PiecePicker** keeps missing pieces in buckets by availability and chooses the next one.
- **Downloader**, **Connecter** and **Bitfield** react to peers: messages, disconnects, hash failures and the
  endgame, in which the last blocks are asked of everyone. Besides the ownership of requests, the model
  proves that work is conserved, but for the cases below: a peer that could be asked for more, or that
  does not know of our interest, has nothing that could be asked for. Messages sent are a log per peer.
- **Choker** decides which peers may download from us.
- **Encrypter** is the handshake, the framing of messages and the table of connections.
- **Bencode** (with **Decimal**) is the encoder and the decoder.
- **VersionCompare** is the order of Debian versions.
- **Scenarios** are concrete runs that end in the cases described below.

`Valid()` of a class is its invariant: every constructor establishes it and every event keeps it, so it
holds over every run of events, in any order. Shuffles, random choices and ties in sorting are arbitrary
choices or inputs, and rates, snub flags, the reactions of the connecter, the uploading side's refusals and
the reachability of peers are arbitrary inputs. Ghost fields record what the program knows only implicitly: which blocks are issued and what has
arrived (StorageWrapper), the plain count of peers per piece (PiecePicker), who was asked for which block
(Downloader), the last choice of preferred peers (Choker) and all connections there ever were (Encrypter).

What the proofs show of the code beyond the promises:

- After a failed hash check outside endgame (`Downloader.py:88-93`) the work conservation of the other
  events can fail, in two ways. The piece is offered to the unchoked peers only. If they have no room for
  all of it, a choking peer that has it and was told we want nothing is not told otherwise, though
  `_letgo` does so in the same situation (`Downloader.py:44-50`). And the sender is offered only that
  piece: if those asked before it take all of it, it stays idle with whatever else it has
  (`Downloader.py:146-148`). `GotPiece` shows that these are the only ways: if everybody was as busy as
  possible, they still are exactly if, before the block came in, the unchoked peers having the piece could
  have been asked for all its blocks but one, or no such choking peer was there; and the peers asked before
  the sender could not take the whole piece, or the sender had nothing else to give (`Recovers`). The
  bypassed sender is moreover told that we are not interested exactly when the backlog is 1. `Scenarios.UntoldLeft` and
  `Scenarios.SenderLeftOut` reach the two cases from a new downloader.
- The scan at start-up does not find all that is on disk. A piece whose own slot was on disk, with
  whatever content, is judged by that slot alone and never looked for elsewhere
  (`StorageWrapper.py:45-47`): it is had if and only if it lies there (`Judged`, part of what the
  constructor ensures). So on files that were allocated in full nothing misplaced is recognised;
  `Scenarios.Swapped` is a disk with two complete pieces of which neither is. A piece whose own slot was
  not on disk is looked for in the slots that were, and of m such pieces with the same hash that n slots
  hold min(n, m) are found, with one exception: a short last piece among them is the last entry on the
  list of its hash and is never taken from it for a slot of full length, so that it blocks the list
  (`StorageWrapper.py:73-74`). That takes metainfo in which it has the hash of a piece of full length.
  `Scan.AllFound` has the exact outcome, `Scenarios.Overlooked` a disk on which it happens.
- Outside endgame, no peer is left believing that we want something of it when we do not
  (`InterestMeans`), although `_request_more` looks only at peers that had one of the pieces just
  exhausted, and at those only if their `example_interest` is gone (`Downloader.py:149-165`).
- The branch that reports corrupted data (`StorageWrapper.py:149-151`) is never taken as long as nothing
  else writes to the files.
- The byte stream of a connection means the same however it is cut, unless the connecter raises an
  exception: then the rest of the same chunk is dropped silently, while a later chunk closes the connection
  (`Encrypter.py:129-136`). `ChunksAlike` and `RaisesWhen` give the exact condition, `CutMatters` a case.
- A local connection created with an empty id, and no other, sends our id twice
  (`Encrypter.py:33-34,77-78`): `OwnIdSent`. The tracker cannot supply such an id, since
  `btformats.py:79-82` demands 20 bytes; only a caller of the `start_connection` that `download.py:297`
  hands to the user interface could.
- Reading past the end of a `Storage` yields an interval of negative length (`Storage.py:61-69`); the
  callers never do so.
- `max_uploads` of zero or less makes the slice in `_rechoke` count from the end (`Choker.py:46`).
- No new choice is made when a choked peer changes its mind, or a choked or uninterested one leaves
  (`Choker.py:69-80`); the choke state is nevertheless the one that the same preferred peers call for, so
  the quota is exact at all times and not only after `_rechoke`.

## Model

| member | source | states |
|---|---|---|
| `Storage.LayoutRuns` | wubi/src/bittorrent/Storage.py:10-25 | The ranges built from any list of files, whatever their names and empty ones included, are not empty and follow one another without gap or overlap from 0 to the total length. |
| `Storage.LayoutContiguous` | wubi/src/bittorrent/Storage.py:10-25 | If the names are distinct, so are the files of the ranges. |
| `Storage.LayoutPlaces` | wubi/src/bittorrent/Storage.py:13-16 | Every range belongs to a listed file of non-zero length, is as long as it, and begins at the sum of the lengths before it. |
| `Storage.LocateInjective` | wubi/src/bittorrent/Storage.py:13-25 | No two positions of the flat array are kept in the same byte of a file. |
| `Storage.Storage.constructor` | wubi/src/bittorrent/Storage.py:8-42 | Opening keeps exactly those bytes that were on disk within a file's length, and exactly those count as preallocated; files are created and truncated as needed. |
| `Storage.Storage.LayOut` | wubi/src/bittorrent/Storage.py:13-25 | The accumulating loop yields the layout, its start positions and the total, and only adds missing empty files to the disk. |
| `Storage.Storage.OpenAll` | wubi/src/bittorrent/Storage.py:29-42 | After the loop every listed file exists and is no longer than listed; the recorded sizes are those from before. |
| `Storage.BisectRight` | wubi/src/bittorrent/Storage.py:66 | The number of leading entries that are at most the position. |
| `Storage.Storage.Intervals` | wubi/src/bittorrent/Storage.py:61-69 | The intervals cover exactly the positions from pos to min(pos + amount, total), in order, each once; past the end the result is one interval of negative length. |
| `Storage.Storage.Read` | wubi/src/bittorrent/Storage.py:71-77 | Reading across any number of files agrees with slicing one sequence, and falls short exactly when some byte of the stretch is not on disk. |
| `Storage.SliceCells` | wubi/src/bittorrent/Storage.py:75-76 | A seek and read in one file give the flat array's bytes at the positions that the interval stands for. |
| `Storage.Storage.Write` | wubi/src/bittorrent/Storage.py:79-90 | Writing across any number of files changes the flat array to the data at exactly those positions; nothing after them changes, and before them only bytes beyond the end of a file, which may turn into zeros. |
| `Storage.OverwriteCells` | wubi/src/bittorrent/Storage.py:87-89 | A seek and write in one file, which may extend it, is an update of the flat array in one place. |
| `Storage.Storage.WasPreallocated` | wubi/src/bittorrent/Storage.py:44-48 | For a stretch that is not empty and begins before the end, the answer is yes exactly when every byte of it was on disk at start-up. |
| `Placement.Geometry.SlotsApart` | wubi/src/bittorrent/StorageWrapper.py:86-93 | Different slots do not overlap, the shorter last one included. |
| `Placement.PlacedCount` | wubi/src/bittorrent/StorageWrapper.py:143-176 | Pieces placed and holes left together number the slots. |
| `Placement.HoleForNew` | wubi/src/bittorrent/StorageWrapper.py:144-145 | holes.pop(0) never fails for a piece without a place. |
| `Placement.AllPlaced` | wubi/src/bittorrent/StorageWrapper.py:143-176 | With every piece placed there are no holes and every piece is in its own slot. |
| `Placement.TakeHole` | wubi/src/bittorrent/StorageWrapper.py:144-149 | Taking the first hole, its own piece being nowhere, leaves it the one vacant slot; it is not the short last one unless that is where the new piece belongs. |
| `Placement.BringHome` | wubi/src/bittorrent/StorageWrapper.py:146-153 | Moving a piece into its own slot, the first hole, leaves its old slot vacant, which is not the short last one. |
| `Placement.SettleInVacant` | wubi/src/bittorrent/StorageWrapper.py:154-155 | A new piece may take the vacant slot when its own slot is still a hole, or is the vacant one. |
| `Placement.SettleAtHome` | wubi/src/bittorrent/StorageWrapper.py:168-173 | Taking its own slot, with the occupant sent to the vacant one, keeps the placement invariant. |
| `Placement.EvictFits` | wubi/src/bittorrent/StorageWrapper.py:156-163 | Whoever is sent away fits the vacant slot, both slots being of full length. |
| `Placement.SomeoneAt` | wubi/src/bittorrent/StorageWrapper.py:157-159 | The search for an occupant always finds one. |
| `Placement.MoveKeeps` | wubi/src/bittorrent/StorageWrapper.py:160-163 | Copying a piece to a free slot and recording it there leaves every placed piece reading back the same bytes. |
| `Placement.FillKeeps` | wubi/src/bittorrent/StorageWrapper.py:165-166 | Filling a free slot leaves every placed piece alone. |
| `Placement.WriteInPlace` | wubi/src/bittorrent/StorageWrapper.py:176 | Writing a block changes that block of that piece and no other piece. |
| `Blocks.TilingExact` | wubi/src/bittorrent/StorageWrapper.py:101-109 | The requests cut from a piece follow one another without gap or overlap from its start to its end. |
| `Blocks.TilingBounds` | wubi/src/bittorrent/StorageWrapper.py:101-109 | No request is empty or longer than the request size, and their lengths sum to the piece's. |
| `Blocks.TilingAt` | wubi/src/bittorrent/StorageWrapper.py:101-109 | Tile by tile: number k begins k request sizes after the start and is as long as the request size, but for what is left of the piece; and there is a next one exactly if anything is left. |
| `Blocks.TilesApart` | wubi/src/bittorrent/StorageWrapper.py:101-109 | Different requests of a piece never overlap. |
| `Blocks.IssueBooks` | wubi/src/bittorrent/StorageWrapper.py:127-131 | Handing out an open request moves it from open to issued, and the open bytes fall by its length. |
| `Blocks.LoseBooks` | wubi/src/bittorrent/StorageWrapper.py:193-196 | Giving a request back moves it from issued to open, and the open bytes rise by its length. |
| `Blocks.ArriveBooks` | wubi/src/bittorrent/StorageWrapper.py:176-177 | An answered request moves from issued to arrived. |
| `Blocks.OpenNothing` | wubi/src/bittorrent/StorageWrapper.py:120-121 | No bytes are open exactly when do_I_have_requests says no, which is exactly when no request is. |
| `Blocks.AgreesMore` | wubi/src/bittorrent/StorageWrapper.py:176 | Writing one more block leaves all that arrived before in place. |
| `Blocks.AssembleWhole` | wubi/src/bittorrent/StorageWrapper.py:178-179 | Once every request has been answered, the stored piece is the arrived data in order, with nothing else in it. |
| `Scan.ScanGive` | wubi/src/bittorrent/StorageWrapper.py:71-78 | Giving a slot to a piece keeps the scan's invariant, and no piece is marked twice. |
| `Scan.ScanHole` | wubi/src/bittorrent/StorageWrapper.py:62-63 | A slot that was not on disk becomes a hole. |
| `Scan.ScanEnd` | wubi/src/bittorrent/StorageWrapper.py:61-78 | After the scan the placement invariant holds, and the slots in use are exactly those that were on disk. |
| `Scan.WantedPop` | wubi/src/bittorrent/StorageWrapper.py:73-74 | Taking the last piece listed under a hash gives a piece that has that hash and was not on disk in its own slot, and that has no place yet unless it is a short last piece. |
| `Scan.LastUnplaced` | wubi/src/bittorrent/StorageWrapper.py:75-76 | Under the guard of the prefix match the last piece has no place yet. |
| `Scan.ListingMore` | wubi/src/bittorrent/StorageWrapper.py:45-48 | The first loop goes on listing every piece that was not on disk, each under its hash, and no other. |
| `Scan.SearchStart` | wubi/src/bittorrent/StorageWrapper.py:43-48 | Before the first slot each list is as long as there are absent pieces with its hash. |
| `Scan.SearchPop` | wubi/src/bittorrent/StorageWrapper.py:73-74 | A slot that holds an absent piece, one whose own slot was not on disk, takes one off the list under its hash; the lists still hold exactly the absent pieces not yet found, and one slot more is accounted for. |
| `Scan.SearchPrefix` | wubi/src/bittorrent/StorageWrapper.py:75-76 | So does the search go on when a slot is taken for the short last piece. |
| `Scan.SearchUnknown` | wubi/src/bittorrent/StorageWrapper.py:77-78 | A slot is left unrecognised only if every absent piece with its hash has been found, or the list is blocked by the short last piece, or the slot is a short last one; and then the short last piece, if the slot begins with it and the guard allows, has been found. |
| `Scan.SearchEnd` | wubi/src/bittorrent/StorageWrapper.py:61-78 | Of m absent pieces with a hash, pieces whose own slots were not on disk, that n slots hold, min(n, m) are found; but if the short last piece is absent and has that hash, none of full length is. |
| `StorageWrapper.StorageWrapper.Create` | wubi/src/bittorrent/StorageWrapper.py:24-29 | A wrapper is made exactly when the total length suits the number of pieces; otherwise ValueError. |
| `StorageWrapper.StorageWrapper.constructor` | wubi/src/bittorrent/StorageWrapper.py:24-84 | Whatever is on disk, the scan establishes all invariants: placement, books, had pieces with the right hash, and finished() called once exactly if nothing is left. A piece whose own slot was on disk is had exactly if it lies there; of the others as many as AllFound says are had, wherever they lie. |
| `StorageWrapper.StorageWrapper.CheckExisting` | wubi/src/bittorrent/StorageWrapper.py:43-84 | The same, for the scan as a loop over the slots: all invariants, pieces with their own slot on disk judged by it alone, and the others found as AllFound says. |
| `StorageWrapper.StorageWrapper.ScanSlot` | wubi/src/bittorrent/StorageWrapper.py:61-78 | One round of the scan: the slot becomes a hole, or goes to exactly one piece that fits it, which is marked had only with the right hash; and it goes to its own piece, else to a listed one with its hash, else to the short last one that it begins with, wherever there is one. |
| `StorageWrapper.StorageWrapper.HashSlot` | wubi/src/bittorrent/StorageWrapper.py:67-70 | The two digests are those of the prefix as long as the last piece and of the whole slot. |
| `StorageWrapper.StorageWrapper.MarkGot` | wubi/src/bittorrent/StorageWrapper.py:53-59 | Marking a piece as had keeps both byte counts and the hash invariant. |
| `StorageWrapper.StorageWrapper.FindTargets` | wubi/src/bittorrent/StorageWrapper.py:43-48 | The table lists, under each hash, exactly the pieces with that hash that were not on disk in their own slot, in ascending order. |
| `StorageWrapper.StorageWrapper.PlacementHolds` | wubi/src/bittorrent/StorageWrapper.py:143-176 | At every moment between calls places is injective, its range is exactly the slots that are no holes, a piece away from its own slot has that slot among the holes, and no piece is longer than its slot. |
| `StorageWrapper.StorageWrapper.MakeRoom` | wubi/src/bittorrent/StorageWrapper.py:144-175 | A new piece gets a slot: the first hole's own piece, if it lies elsewhere, goes home; the slot it leaves, or else the hole, goes to the new piece, or, if somebody sits in the new piece's own slot, to them, the new piece going home; every other placed piece stays and reads back the same bytes. |
| `StorageWrapper.StorageWrapper.MakeRoomByMoving` | wubi/src/bittorrent/StorageWrapper.py:146-163 | The case in which the first hole's own piece lies elsewhere; the corruption test never succeeds. |
| `StorageWrapper.StorageWrapper.MakeRoomInHole` | wubi/src/bittorrent/StorageWrapper.py:164-167 | The case in which the new piece goes into the first hole; no other piece moves, and the slot is filled with bytes 0xFF exactly if not all of it was on disk before. |
| `StorageWrapper.StorageWrapper.Evict` | wubi/src/bittorrent/StorageWrapper.py:157-163 | The occupant of the new piece's slot goes to the vacant one with its bytes, the new piece to its own, and no other piece moves. |
| `StorageWrapper.StorageWrapper.StoreBlock` | wubi/src/bittorrent/StorageWrapper.py:144-176 | Storing a block changes that block of that piece's content, and its bytes stand on disk from places[index] * piece_size + begin on; every other placed piece reads back as before. |
| `StorageWrapper.StorageWrapper.NewRequest` | wubi/src/bittorrent/StorageWrapper.py:123-134 | The least open request is handed out, only once, and endgame begins exactly when nothing is open any more. |
| `StorageWrapper.StorageWrapper.MakeInactive` | wubi/src/bittorrent/StorageWrapper.py:101-109 | The loop computes the tiling of the piece: requests at every multiple of the request size, as many as cover min(piece_size, total - piece_size * index) bytes, the last one being what is left. |
| `StorageWrapper.StorageWrapper.RequestLost` | wubi/src/bittorrent/StorageWrapper.py:193-196 | The request is open again and no longer issued; all else stays. |
| `StorageWrapper.StorageWrapper.NothingOpen` | wubi/src/bittorrent/StorageWrapper.py:131-133 | amount_inactive is never negative, and zero exactly when no piece has open requests. |
| `StorageWrapper.StorageWrapper.BlocksAccounted` | wubi/src/bittorrent/StorageWrapper.py:123-134 | Every block of a missing piece is exactly one of open, issued and arrived; amount_inactive and amount_left are the sums they stand for. |
| `StorageWrapper.StorageWrapper.ActiveCounts` | wubi/src/bittorrent/StorageWrapper.py:127 | numactive counts the requests of a piece that are issued and unanswered. |
| `StorageWrapper.StorageWrapper.PieceWhole` | wubi/src/bittorrent/StorageWrapper.py:178-179 | The hash check runs only when all blocks have arrived since the piece was last started, and reads exactly their data. |
| `StorageWrapper.StorageWrapper.CheckPiece` | wubi/src/bittorrent/StorageWrapper.py:178-190 | The piece is had exactly if the hash of all that came in is right, which is that of the bytes on disk from places[index] * piece_size on, as many as the piece is long; otherwise it starts over, and data_flunked is told its length. |
| `StorageWrapper.StorageWrapper.PieceCameIn` | wubi/src/bittorrent/StorageWrapper.py:143-191 | An asked-for block is stored, byte by byte at places[index] * piece_size + begin, and answered; the last one completes or restarts the piece by the hash of all that came in, which is what then lies in its slot; finished() is called exactly when nothing is left. |
| `StorageWrapper.StorageWrapper.LeftAfter` | wubi/src/bittorrent/StorageWrapper.py:183-185 | amount_left is never negative, and zero exactly when every piece is had. |
| `StorageWrapper.StorageWrapper.Complete` | wubi/src/bittorrent/StorageWrapper.py:83-84 | When amount_left is zero, and only then, finished() has been called, once; holes is empty, places is the identity and, for each i, the bytes of the download from i * piece_size on, as many as piece i is long, have the expected hash. |
| `StorageWrapper.StorageWrapper.HadHash` | wubi/src/bittorrent/StorageWrapper.py:178-181 | At every moment between calls, what lies on disk from places[i] * piece_size on has the expected hash for every piece that is had. |
| `StorageWrapper.StorageWrapper.HoldsContent` | wubi/src/bittorrent/StorageWrapper.py:178-179 | The content of a placed piece is what lies on disk from places[i] * piece_size on, every byte of it, min(piece_size, total - i * piece_size) in all. |
| `StorageWrapper.StorageWrapper.GetPiece` | wubi/src/bittorrent/StorageWrapper.py:205-215 | A block is served exactly when its piece is had and long enough: as many bytes as asked for, those on disk from places[index] * piece_size + begin on, of a piece that has the expected hash. |
| `PiecePicker.OncePerPiece` | wubi/src/bittorrent/PiecePicker.py:35-49 | No piece occurs twice in all the buckets together. |
| `PiecePicker.RemoveKeeps` | wubi/src/bittorrent/PiecePicker.py:36-39 | Swap-delete keeps buckets, positions and counts in agreement. |
| `PiecePicker.InsertKeeps` | wubi/src/bittorrent/PiecePicker.py:40-49 | Insertion at any position, by displacing an entry to the end, keeps them in agreement. |
| `PiecePicker.BumpKeeps` | wubi/src/bittorrent/PiecePicker.py:102-108 | So does moving an entry to the end with all later positions renumbered. |
| `PiecePicker.PiecePicker.constructor` | wubi/src/bittorrent/PiecePicker.py:7-17 | Initially every piece is wanted and no peer has it. |
| `PiecePicker.PiecePicker.ShiftOver` | wubi/src/bittorrent/PiecePicker.py:35-49 | Moving a piece between two buckets restores the agreement. |
| `PiecePicker.PiecePicker.GotHave` | wubi/src/bittorrent/PiecePicker.py:19-26 | The count of the piece rises by one, and so does its bucket while it is wanted. |
| `PiecePicker.PiecePicker.LostHave` | wubi/src/bittorrent/PiecePicker.py:28-33 | The count of the piece falls by one, and so does its bucket while it is wanted. |
| `PiecePicker.PiecePicker.Requested` | wubi/src/bittorrent/PiecePicker.py:51-55 | The piece is listed as started, at most once; seedstarted stays a part of started. |
| `PiecePicker.PiecePicker.Complete` | wubi/src/bittorrent/PiecePicker.py:57-70 | The piece leaves its bucket and both lists. |
| `PiecePicker.PiecePicker.Next` | wubi/src/bittorrent/PiecePicker.py:72-97 | A wanted started piece of least availability if there is one; otherwise a wanted piece of least positive availability, or before the cutoff the first wanted one in the shuffled order; None only when there is no such piece. |
| `PiecePicker.PiecePicker.BestStarted` | wubi/src/bittorrent/PiecePicker.py:79-85 | The collecting loop finds exactly the wanted started pieces of least availability. |
| `PiecePicker.PiecePicker.FirstScrambled` | wubi/src/bittorrent/PiecePicker.py:88-92 | The first wanted piece in the shuffled order, or None exactly when none is wanted. |
| `PiecePicker.PiecePicker.FirstByRarity` | wubi/src/bittorrent/PiecePicker.py:93-97 | The scan of the buckets from 1 on finds a wanted piece of least positive availability. |
| `PiecePicker.PiecePicker.AmIComplete` | wubi/src/bittorrent/PiecePicker.py:99-100 | The count of completed pieces has reached the total exactly when every piece is complete. |
| `PiecePicker.PiecePicker.Bump` | wubi/src/bittorrent/PiecePicker.py:102-108 | The piece was in its bucket and now is the last of it; the others, and the other buckets, are in their order. |
| `Downloader.Downloader.OutsideEndgame` | wubi/src/bittorrent/Downloader.py:117-144 | Outside endgame the blocks asked of peers are exactly those issued and not received, each asked of one peer; numactive counts them per piece; no list exceeds the backlog. |
| `Downloader.Downloader.InEndgame` | wubi/src/bittorrent/Downloader.py:166-188 | In endgame nothing is unissued; all_requests lists each outstanding block once; a peer is asked only for those, without repetition, and for all it has as far as its backlog goes. |
| `Downloader.Downloader.BucketIsCount` | wubi/src/bittorrent/Downloader.py:190-212 | The bucket of every missing piece is the number of connected peers that have it, literally the size of that set; so is the plain count of every piece. |
| `Downloader.Downloader.constructor` | wubi/src/bittorrent/Downloader.py:235-245 | A downloader without peers satisfies all invariants, on a storage in which no piece is cut into requests, as one is that has just been opened. |
| `Downloader.Downloader.MakeDownload` | wubi/src/bittorrent/Downloader.py:247-249 | A new peer is appended, about which and to which nothing is known. |
| `Downloader.Downloader.FixDownloadEndgame` | wubi/src/bittorrent/Downloader.py:173-188 | Afterwards the peer is asked for all outstanding blocks it has, as far as the backlog allows, and told of our interest exactly when there is one; what was sent is a change of interest, if any, and one request for each block that is new. |
| `Downloader.Downloader.PickNext` | wubi/src/bittorrent/Downloader.py:126-134 | A piece the peer has with open requests: of those given the first, or else the picker's choice, a started one of least availability before the rarest, or before the cutoff the first in shuffled order; None only when there is none. |
| `Downloader.Downloader.StartedFirst` | wubi/src/bittorrent/Downloader.py:126-142 | After every event: if the peer wants a piece that has been cut into requests (for a complete peer, one marked so for a complete peer), what is picked for it is a started piece, no less rare. Every piece that has been cut into requests is listed as started, through chokes, hash failures and the endgame. |
| `Downloader.Downloader.RarestFirst` | wubi/src/bittorrent/PiecePicker.py:72-97 | After every event: no more connected peers have the piece picked than have any other piece that could have been picked, a started one if the peer wants one, and from the cutoff on any. |
| `Downloader.Downloader.AskFor` | wubi/src/bittorrent/Downloader.py:140-146 | The least open block of the piece goes to the peer, as the last it was asked for, and no other piece is touched; the piece becomes the example of what is wanted of the peer, and is listed as started, for a complete peer also among the pieces started by such; none is taken off these lists. |
| `Downloader.Downloader.FillUp` | wubi/src/bittorrent/Downloader.py:125-146 | The loop ends with the backlog full, or with nothing left of what was on offer, the given pieces or all that the peer has; its first block is the least open one of the piece picked; only blocks of pieces that the peer has go, and of a single piece on offer as many as there is room for; the pieces of all blocks newly asked for are listed as started, for a complete peer also among those started by such. |
| `Downloader.Downloader.Reconsider` | wubi/src/bittorrent/Downloader.py:149-165 | Afterwards every peer that is told of our interest is asked for something or has something that can be handed out: idle peers are told of lost interest exactly when all they had is gone. None is newly told of interest. |
| `Downloader.Downloader.StartEndgame` | wubi/src/bittorrent/Downloader.py:166-171 | Collecting all lists establishes the endgame invariant. |
| `Downloader.Downloader.RequestMore` | wubi/src/bittorrent/Downloader.py:117-171 | All invariants are kept, that of interest included; busy peers stay busy; the peer itself ends with its backlog full or with nothing left of what was on offer; unless the endgame begins, no other peer is asked for anything or newly told of interest, and the pieces of all blocks newly asked for are listed as started, for a complete peer also among those started by such. |
| `Downloader.Downloader.InterestMeans` | wubi/src/bittorrent/Downloader.py:146-165 | Outside endgame, after every event, a peer that is told of our interest is asked for something or has something that can be handed out; as long as work is conserved, exactly those peers are told. |
| `Downloader.Downloader.RequestFromUnchoked` | wubi/src/bittorrent/Downloader.py:40-43 | Pieces offered to the unchoked peers in any order leave each of them as busy as it can be. |
| `Downloader.Downloader.Letgo` | wubi/src/bittorrent/Downloader.py:28-50 | What a choking or leaving peer was asked for is reissued, or in endgame still asked of others; peers stay busy and told of our interest. |
| `Downloader.Downloader.GotChoke` | wubi/src/bittorrent/Downloader.py:52-55 | The invariants and everybody's work are kept; the peer has no requests left. |
| `Downloader.Downloader.GotUnchoke` | wubi/src/bittorrent/Downloader.py:57-61 | If we are interested the peer is asked for as much as it can be; otherwise nobody is asked for anything. The invariants and everybody's work are kept. |
| `Downloader.Downloader.Disconnected` | wubi/src/bittorrent/Downloader.py:21-26 | The peer leaves, its pieces are no longer counted, its requests go to others; invariants and work are kept. |
| `Downloader.Downloader.GotHave` | wubi/src/bittorrent/Downloader.py:190-206 | The piece is recorded and counted; outside endgame an unchoked peer is asked for as many blocks of it as it has room for, a choking one is told of our interest if any can be handed out, and nobody else is asked for anything or newly told of interest; its connection is closed exactly if the piece is new and both sides are complete. |
| `Downloader.Downloader.GotHaveBitfield` | wubi/src/bittorrent/Downloader.py:208-226 | The pieces are recorded and counted; the peer is told of our interest exactly when it has something for us, in and outside endgame; its connection is closed exactly if both sides are complete. |
| `Downloader.Downloader.Unlist` | wubi/src/bittorrent/Downloader.py:74-75 | The removal from all_requests always finds the block. |
| `Downloader.Downloader.Reissue` | wubi/src/bittorrent/Downloader.py:81-84 | In endgame every block of a failed piece is handed out again and listed once. |
| `Downloader.Downloader.CancelOthers` | wubi/src/bittorrent/Downloader.py:96-107 | In endgame every other peer is no longer asked for the block that came in, is sent a cancel as the last word on it if it was, and is asked for others instead. |
| `Downloader.Downloader.OfferAgain` | wubi/src/bittorrent/Downloader.py:89-92 | In the given order each unchoked peer takes as many blocks of the failed piece as it has room for and are still open, and choking peers that know of no interest are not told of it. |
| `Downloader.Downloader.Retry` | wubi/src/bittorrent/Downloader.py:88-92 | After a failed check outside endgame the other unchoked peers are as busy as they can be; everybody is exactly if there was room for the whole piece or no untold choking peer has it, and the sender got some of it or has nothing else to give. |
| `Downloader.Downloader.MoveBack` | wubi/src/bittorrent/Downloader.py:88 | A piece that failed its check goes to the end of its bucket, and the other pieces stay in their order. |
| `Downloader.Downloader.CloseSeeds` | wubi/src/bittorrent/Downloader.py:109-111 | Exactly the peers that have every piece are closed. |
| `Downloader.Downloader.GotPiece` | wubi/src/bittorrent/Downloader.py:69-112 | A block that was asked for is stored, byte by byte where its piece lies, one that was not changes nothing; the answer says whether the piece is had, which after its last block it is exactly if what lies there has the right hash; a piece that failed its check outside endgame is moved to the end of its bucket; the invariants hold across hash failures and the endgame. Work is conserved, and after a failed check outside endgame it is exactly if Recovers held before the block came in, for any order in which the peers are asked; the sender is told that we are not interested, in spite of what it has, exactly if it was bypassed and asked for nothing else, which for a busy peer means a backlog of 1. A complete download closes exactly the complete peers. |
| `Downloader.Downloader.Heard` | wubi/src/bittorrent/Connecter.py:156-162 | A peer from which nothing has come has no counted pieces, chokes us and has not been told of our interest, so that a first bitfield can simply be counted. |
| `Downloader.Downloader.Announce` | wubi/src/bittorrent/Connecter.py:219-221 | Every connected peer is told of the piece. |
| `Bitfield.FlagsBack` | wubi/src/bittorrent/bitfield.py:32-70 | A bitfield message is accepted as certain flags exactly if it is what tostring makes of them, most significant bit first and spare bits zero. |
| `Bitfield.FlagLies` | wubi/src/bittorrent/bitfield.py:17-22 | The flag of piece i is bit 128, 64, 32, 16, 8, 4, 2 or 1, by i mod 8, of byte i / 8. |
| `Connecter.Understood` | wubi/src/bittorrent/Connecter.py:53-83 | A message is read as certain contents exactly if these are proper (the piece number below the number of pieces, a block not empty, a bitfield first) and it is, byte for byte, what the sending side writes for them: 0 to 3 alone, 4 with the piece, 5 with the bits, 6 and 8 with piece, offset and length, 7 with piece, offset and data, all numbers in four bytes. Everything else is malformed. |
| `Connecter.Connecter.GotMessage` | wubi/src/bittorrent/Connecter.py:156-223 | What cannot be read closes just this connection. Any other message is heeded by kind: a choke and an unchoke are recorded; a have or a bitfield is recorded, and closes the connection exactly if the news makes both sides complete; an asked-for block is written where it belongs; and interest, its loss, requests, cancels and blocks not asked for leave the downloading side as it is, unless the uploading side refuses a request. All invariants of the downloader hold after every message. |
| `Connecter.Connecter.GotBlock` | wubi/src/bittorrent/Connecter.py:211-221 | A completed piece is announced to every peer still connected. |
| `Choker.QuotaExact` | wubi/src/bittorrent/Choker.py:40-61 | The number of interested unchoked peers is min(interested, max(min_uploads, preferred + 1)). |
| `Choker.UnchokedFirst` | wubi/src/bittorrent/Choker.py:50-61 | Among the peers that are not preferred, the unchoked ones come first in connection order. |
| `Choker.FrontUnchoked` | wubi/src/bittorrent/Choker.py:50-61 | The first connection is never choked. |
| `Choker.BoundedWait` | wubi/src/bittorrent/Choker.py:18-27 | With fixed membership, a peer at position k does not stay interested and choked through 3k ticks, whatever rates, limits and other peers do. |
| `Choker.MovesUp` | wubi/src/bittorrent/Choker.py:21-26 | While a peer waits, each rotation moves it ahead by at least one position. |
| `Choker.RotationMovesAhead` | wubi/src/bittorrent/Choker.py:22-26 | A rotation moves a waiting peer to an earlier position. |
| `Choker.InterestOfChoked` | wubi/src/bittorrent/Choker.py:74-80 | Whether a choked peer becomes interested or loses interest makes no difference to who is choked, so that no new choice is needed. |
| `Choker.LeavingUnnoticed` | wubi/src/bittorrent/Choker.py:69-72 | Nor does a peer that leaves choked or uninterested. |
| `Choker.Kept` | wubi/src/bittorrent/Choker.py:46 | The slice leaves min(max_uploads - 1, eligible) peers for max_uploads of at least 1; below that Python's negative index applies, and it leaves out the last 1 - max_uploads of them. |
| `Choker.Choker.constructor` | wubi/src/bittorrent/Choker.py:7-16 | min_uploads is max_uploads unless given. |
| `Choker.Choker.Rechoke` | wubi/src/bittorrent/Choker.py:40-61 | The preferred peers are eligible, as many as allowed, with rates at least those of every other eligible peer; every peer is choked exactly as its place in the order and the quota say. |
| `Choker.Choker.Apply` | wubi/src/bittorrent/Choker.py:48-61 | The counting loop chokes exactly the peers that are not preferred and come after the quota is used up. |
| `Choker.Choker.SortByRate` | wubi/src/bittorrent/Choker.py:45 | A permutation with descending rates, ties in any order. |
| `Choker.Choker.RoundRobin` | wubi/src/bittorrent/Choker.py:18-27 | Every third tick moves the first choked and interested peer to the front, those before it going to the end; at other ticks, or without such a peer, the order stays; then the choice is made anew. |
| `Choker.Choker.Rotate` | wubi/src/bittorrent/Choker.py:22-26 | The first choked and interested peer moves to the front, those before it to the end. |
| `Choker.Choker.ConnectionMade` | wubi/src/bittorrent/Choker.py:63-67 | The connection is inserted at the drawn place, and the choice is made anew. |
| `Choker.Choker.ConnectionLost` | wubi/src/bittorrent/Choker.py:69-72 | The connection is taken out; the choke state is right with and without a new choice. |
| `Choker.Choker.GotInterested` | wubi/src/bittorrent/Choker.py:74-76 | The choke state is right with and without a new choice; the order stays. |
| `Choker.Choker.GotNotInterested` | wubi/src/bittorrent/Choker.py:78-80 | The same for a peer that loses interest. |
| `Choker.Choker.ChangeMaxUploads` | wubi/src/bittorrent/Choker.py:87-89 | The choice is made anew under the new limit. |
| `Encrypter.ChunksAlike` | wubi/src/bittorrent/Encrypter.py:116-137 | Feeding a stream in two parts gives the same connection as feeding it at once, if and only if the first part raises no exception or the second is empty. |
| `Encrypter.RaisesWhen` | wubi/src/bittorrent/Encrypter.py:129-133 | A part raises an exception exactly if, among what the connecter would be told of it, something makes it raise one and leave the connection open before anything makes it close the connection. |
| `Encrypter.CutMatters` | wubi/src/bittorrent/Encrypter.py:116-137 | A connection and two bytes that are dropped, or close it, depending on how they are cut. |
| `Encrypter.AnyChunks` | wubi/src/bittorrent/Encrypter.py:116-137 | If the connecter raises nothing, any cutting of a stream into chunks gives the same writes, calls and closes. |
| `Encrypter.FeedFed` | wubi/src/bittorrent/Encrypter.py:116-137 | Between chunks an open connection holds fewer bytes than its reader waits for; an empty message is handled at once and the loop still ends. |
| `Encrypter.AfterException` | wubi/src/bittorrent/Encrypter.py:129-133 | After an exception the next byte closes the connection. |
| `Basics.ToIntBack` | wubi/src/bittorrent/Encrypter.py:10-15 | toint undoes tobinary for every 32-bit number. |
| `Basics.FourBytes` | wubi/src/bittorrent/Encrypter.py:10-15 | The first of four bytes counts 2^24, then 2^16, 2^8 and 1. |
| `Encrypter.FramesDelivered` | wubi/src/bittorrent/Encrypter.py:88-97 | What send_message wrote is delivered as the same non-empty messages in the same order, with nothing left over. |
| `Encrypter.LengthChecked` | wubi/src/bittorrent/Encrypter.py:88-92 | A message whose length exceeds the limit closes the connection as soon as its length has come in, whatever follows; any other leaves it open, and what follows is read as the message. |
| `Encrypter.HandshakeSettled` | wubi/src/bittorrent/Encrypter.py:48-86 | 68 bytes settle the handshake: the connection is made if and only if header, download id and peer id are right, and otherwise closed unheard of; what is written meanwhile. |
| `Encrypter.HandshakeForm` | wubi/src/bittorrent/Encrypter.py:31-32 | A handshake begins with 19, the name of the protocol and eight zeros, and ends with the id of the download. |
| `Encrypter.ProtocolName` | wubi/src/bittorrent/Encrypter.py:8 | The name is that of BitTorrent, letter by letter. |
| `Encrypter.HandshakeAccepted` | wubi/src/bittorrent/Encrypter.py:48-86 | What another such program sends is accepted exactly if it is about the same download and its id is welcome. |
| `Encrypter.OwnIdSent` | wubi/src/bittorrent/Encrypter.py:30-34 | In a handshake that succeeds our header and our id are sent once each, but for a local connection that was given an empty id, on which our id is sent twice. |
| `Encrypter.MadeOnceLostLast` | wubi/src/bittorrent/Encrypter.py:84-111 | Over a connection's life the connecter is told at most once that it is made, first, and at most once that it is lost, last, if made and closed. |
| `Encrypter.Connection.constructor` | wubi/src/bittorrent/Encrypter.py:20-34 | A local connection writes its handshake at once, and our id if the peer's id was given. |
| `Encrypter.Connection.SendMessage` | wubi/src/bittorrent/Encrypter.py:113-114 | The message is written with its length before it. |
| `Encrypter.Encoder.DataCameIn` | wubi/src/bittorrent/Encrypter.py:116-137 | The loop does with the bytes what the stream function says; other connections change only if the connecter closes them; ids stay distinct, every life goes on in order, and an identified incoming connection is noticed. |
| `Encrypter.Encoder.ReadAll` | wubi/src/bittorrent/Encrypter.py:116-137 | The same, for the loop itself. |
| `Encrypter.Encoder.ReadNext` | wubi/src/bittorrent/Encrypter.py:48-100 | Each reader's answer and effects. |
| `Encrypter.Encoder.ReadPeerId` | wubi/src/bittorrent/Encrypter.py:69-86 | A known id must match; an unknown one must be neither ours nor that of an open connection, and becomes known. |
| `Encrypter.Encoder.Sever` | wubi/src/bittorrent/Encrypter.py:102-111 | The connection leaves the table and the connecter is told if it had been told of it. |
| `Encrypter.Encoder.StartConnection` | wubi/src/bittorrent/Encrypter.py:162-177 | A connection is opened if and only if the id is neither ours nor an open connection's, there is room, and the address is reachable; the address is kept for later exactly when there is no room, the spare list is not full and lacks it. |
| `Encrypter.Encoder.ExternalConnectionMade` | wubi/src/bittorrent/Encrypter.py:195-197 | An incoming connection starts unidentified. |
| `Encrypter.Encoder.ConnectionLost` | wubi/src/bittorrent/Encrypter.py:204-207 | The connection is severed; then the spare addresses are tried from the last one on, until there are enough connections or none is left; none is dropped untried, and each that can be reached gives one new outgoing connection to a peer of unknown id. |
| `Encrypter.Encoder.TrySpare` | wubi/src/bittorrent/Encrypter.py:206-207 | The last spare address, and no other, is taken off the list, and gives one connection more exactly if it can be reached. |
| `Bencode.RoundTrip` | wubi/src/bittorrent/bencode.py:62-69 | An input decodes to a value if and only if it is that value's encoding. |
| `Bencode.DecodesBack` | wubi/src/bittorrent/bencode.py:4-45 | Wherever a value's encoding stands in an input, decoding there gives the value and the offset just after it. |
| `Bencode.EncodesAgain` | wubi/src/bittorrent/bencode.py:4-45 | What is accepted inside an input is the encoding of what it decodes to. |
| `Bencode.IntTextParses` | wubi/src/bittorrent/bencode.py:240-241 | The text of any int passes the tests for minus signs and leading zeros and parses to it. |
| `Bencode.IntTextAgain` | wubi/src/bittorrent/bencode.py:4-16 | Any text that passes those tests is the text of the int it parses to. |
| `Bencode.KeysAfter` | wubi/src/bittorrent/bencode.py:36-45 | The keys accepted in a dictionary are all greater than the one before. |
| `Bencode.FirstEntry` | wubi/src/bittorrent/bencode.py:252-259 | A dictionary's encoding begins with its least key and goes on with that of the rest. |
| `Bencode.LessTrichotomy` | wubi/src/bittorrent/bencode.py:41 | Byte strings are totally ordered. |
| `Bencode.LessMeans` | wubi/src/bittorrent/bencode.py:254-255 | One byte string is before another exactly if it is a proper beginning of it or smaller in the first byte in which they differ. |
| `Bencode.Format` | wubi/src/bittorrent/bencode.py:240-259 | The encoding in full: i, minus sign, digits, e; length, colon, bytes; l, items, e; d, keys and values with the keys rising in that order, each key once, e. |
| `Bencode.KeysRead` | wubi/src/bittorrent/bencode.py:36-45 | A dictionary that is accepted is written with its keys rising in that order, and each followed by its value. |
| `Bencode.DecodeInt` | wubi/src/bittorrent/bencode.py:4-16 | The offset after an int lies within the input. |
| `Bencode.Decode` | wubi/src/bittorrent/bencode.py:47-64 | The dispatching decoder computes the decoding function. |
| `Bencode.DecodeList` | wubi/src/bittorrent/bencode.py:29-34 | The loop computes the items up to the closing e. |
| `Bencode.DecodeDict` | wubi/src/bittorrent/bencode.py:36-45 | The loop computes the entries up to the closing e, rejecting keys out of order, which is the order of LessMeans. |
| `Bencode.BDecode` | wubi/src/bittorrent/bencode.py:62-69 | The value of which the input is the encoding, as Format spells it out, or ValueError if there is none. |
| `Bencode.SortedKeys` | wubi/src/bittorrent/bencode.py:254-255 | The keys in ascending order, each once; ascending as in LessMeans. |
| `Bencode.Output.EncodeInt` | wubi/src/bittorrent/bencode.py:240-241 | Appends the int's encoding. |
| `Bencode.Output.EncodeStr` | wubi/src/bittorrent/bencode.py:243-244 | Appends the string's encoding. |
| `Bencode.Output.EncodeList` | wubi/src/bittorrent/bencode.py:246-250 | Appends the items' encodings in order. |
| `Bencode.Output.EncodeDict` | wubi/src/bittorrent/bencode.py:252-259 | Appends the entries in the order of keys. |
| `Bencode.Output.Encode` | wubi/src/bittorrent/bencode.py:261-268 | Appends the value's encoding to what has been written. |
| `Bencode.BEncode` | wubi/src/bittorrent/bencode.py:276-279 | The encoding, as Format spells it out; it decodes to the value again. |
| `Decimal.ValueOfDigits` | wubi/src/bittorrent/bencode.py:241 | A printed number parses to itself. |
| `Decimal.DigitsWritten` | wubi/src/bittorrent/bencode.py:241 | Numbers are written in decimal, most significant digit first, with 48 to 57 for the digits. |
| `Decimal.DigitsOfValue` | wubi/src/bittorrent/bencode.py:11-15 | A run of digits is printed back exactly if it has no superfluous leading zero. |
| `Scenarios.SenderLeftOut` | wubi/src/bittorrent/Downloader.py:88-93 | From a new downloader to a failed check after which the sender, bypassed, is idle and told that we are not interested, though it has a piece that can be handed out. |
| `Scenarios.UntoldLeft` | wubi/src/bittorrent/Downloader.py:88-93 | From a new downloader to a failed check after which work is not conserved, since a choking peer that has the piece is not told of our interest. |
| `Scenarios.Overlooked` | wubi/src/bittorrent/StorageWrapper.py:73-78 | A disk on which the scan does not find a piece that lies in another slot, although its own slot was not on disk, the short last piece having the same hash. |
| `Scenarios.Swapped` | wubi/src/bittorrent/StorageWrapper.py:45-47 | A disk that holds two pieces complete in each other's slots: neither is had after the scan. |
| `VersionCompare.VerRevCmp` | 2.10/tools/opkg-utils/opkg-compare-versions.c:41-66 | The sign of the pointer loop's result is that of the lexicographic comparison of the zero-padded keys; it ends, and reads no further than either terminator. |
| `VersionCompare.CmpMeaning` | 2.10/tools/opkg-utils/opkg-compare-versions.c:41-66 | That comparison is decided by the first position where the keys, continued with zeros, differ, and is zero exactly when there is none. |
| `VersionCompare.CmpTransitive` | 2.10/tools/opkg-utils/opkg-compare-versions.c:41-66 | The comparison of keys is transitive, strictly if either part is strict. |
| `VersionCompare.CmpAntisymmetric` | 2.10/tools/opkg-utils/opkg-compare-versions.c:41-66 | Swapping the keys turns the sign round. |
| `VersionCompare.SkipZero` | 2.10/tools/opkg-utils/opkg-compare-versions.c:55-56 | Leading zeros of a number do not count. |
| `VersionCompare.NumberGoesOn` | 2.10/tools/opkg-utils/opkg-compare-versions.c:57-62 | Without leading zeros, the longer run of digits is the greater number, of any size. |
| `VersionCompare.Order` | 2.10/tools/opkg-utils/opkg-compare-versions.c:35-39 | Only digits and the end have order zero, so that the first loop never passes the end of one text alone. |
| `VersionCompare.TildeFirst` | 2.10/tools/opkg-utils/opkg-compare-versions.c:35-39 | A tilde, with anything after it, makes a version sort earlier, even than its end. |
| `VersionCompare.TextDecides` | 2.10/tools/opkg-utils/opkg-compare-versions.c:35-54 | Texts that differ first in two characters that are no digits are in the order of these, whatever follows: a tilde first, then the letters, then the rest, each in the order of ASCII. |
| `VersionCompare.EndDecides` | 2.10/tools/opkg-utils/opkg-compare-versions.c:35-54 | Going on with a character that is no digit makes a text later, but for a tilde, which makes it earlier. |
| `VersionCompare.DigitDecides` | 2.10/tools/opkg-utils/opkg-compare-versions.c:35-54 | Where no number is under way, a digit comes before any character that is no digit but a tilde. |
| `VersionCompare.NumbersDecide` | 2.10/tools/opkg-utils/opkg-compare-versions.c:55-63 | Texts that differ first in two numbers are in the order of their values; equal values leave it to what follows. |
| `VersionCompare.CommonStart` | 2.10/tools/opkg-utils/opkg-compare-versions.c:45-63 | A common beginning, unless it ends amid a number, makes no difference. |
| `VersionCompare.VersionCompare` | 2.10/tools/opkg-utils/opkg-compare-versions.c:68-78 | The epochs decide if they differ; else the versions, if their keys differ; else the revisions. |
| `VersionCompare.CompareAntisymmetric` | 2.10/tools/opkg-utils/opkg-compare-versions.c:68-78 | The order of versions is reflexive and antisymmetric in sign. |
| `VersionCompare.CompareTransitive` | 2.10/tools/opkg-utils/opkg-compare-versions.c:68-78 | The order of versions is transitive, strictly if either part is strict. |
| `VersionCompare.VersionSatisfied` | 2.10/tools/opkg-utils/opkg-compare-versions.c:80-99 | Each operator in terms of the order; < and > include equality; unknown operators are refused. |

## Left out

- Sockets, threads, timers, HTTP and the tracker; failing writes, `IOError` and the calls of `failed()` for it.
- SHA itself; runs with `check_hashes` off and with no pieces at all; the abort flag of the scan and its progress reports.
- File handles, read-only reopening, and file modes; only file contents are kept.
- Storage.Storage.constructor: requires distinct file names, because `wubi/src/bittorrent/btformats.py:49-52` refuses others before they get here.
- Storage.Storage.OpenAll: requires distinct file names, for the same reason.
- Changes to the files by anyone else while the program runs.
- Rates, snubbing and upload capping as computed values; they are arbitrary inputs to the choker.
- The uploading side's queue of requests, of which only the choked and interested flags are kept; whether it closes a connection when asked for a block is an arbitrary input to `GotMessage`, and its closing a connection later, when that is flushed, is the event `Disconnected`.
- Availability of 2^30 and more: the picker's sentinel is taken to be above every count.
- `Encoder.got_id`, which nothing calls, and the keepalive timer.
- The map from sockets to connections: a connection stands for its socket, and the connecter's handling of a lost connection is taken to raise nothing and close nothing.
- NULL texts in the version comparison, which count as empty, and characters outside ASCII.
- `parseversion`, which copies strings and calls `strtoul`.
- Booleans, tuples and `Bencached` in the encoder; and what Python's `int()` accepts beyond plain decimals, such as signs and spaces, in the decoder.
- Intervals: says nothing of coverage for a position past the end, where the program's result is not meaningful.
- WasPreallocated: nothing is said of an empty stretch or of one that begins at the end or later; the program asks only about slots.
