# wikirace-serv in Dafny

wikirace-serv is the server of a multiplayer "wiki race". A host opens a game on a wiki and friends join it
by the game's id. Every player starts on the same page and follows links until they reach the goal page.
The server serves the wiki's pages with their links rewritten. Each link to another article becomes a
link to the server's own visit handler, which carries an encrypted page token. The visit handler records
the page in the player's path and, at the goal, judges whether the player leads. Every event is pushed to
the game's other players over websockets.

This project models the game-state logic of that server and the string and byte codecs around it, and
proves properties of them.

| module | file | what it models |
|---|---|---|
| `Wrappers` | wrappers.dfy | `Option` and `Result`; a Go panic or returned error is an `Err` |
| `Bytes` | bytes.dfy | Go's `[]byte(s)` and `string(b)` on strings whose characters stand for bytes |
| `Base64` | base64.dfy | `base64.URLEncoding` (section 5 of RFC 4648, with `=` padding) |
| `TokenFormat` | tokenformat.dfy | `fmt.Sprintf("%d:%s", …)` and its inverse `fmt.Sscanf` |
| `PageCipher` | encryption.dfy | `pad`, `EncryptPage` and `DecryptPage` of encryption.go, over any block cipher whose decryption inverts its encryption |
| `Store` | store.dfy | the diskv key/value store of store.go as a map from keys to bytes |
| `GameHasher` | gamehasher.dfy | the process-wide running SHA-1 hash and `NewGameHash` of game_store.go |
| `Session` | session.dfy | the cookie session's `Values` map (session.go) |
| `Game` | game.dfy | `Game` and `Player` (game.go, player.go) as classes with their fields |
| `GameStore` | gamestore.dfy | the game store and its pool of loaded games (game_store.go) |
| `SessionGame` | sessiongame.dfy | `GameSession.GetGame` and `PlayerFromSession` |
| `Messages` | messages.dfy | the websocket messages of message.go |
| `Socket` | socket.dfy | the per-game client registry of socket.go |
| `Handlers` | handlers.dfy | `serviceVisitUrl` and the decision logic of `joinHandler` and `visitHandler` (main.go) |
| `Wikis` | wikis.dfy | attribute editing, link classification and rewriting, page links and the wiki registry (wikis/wikis.go) |
| `WikiPages` | wikipages.dfy | what differs in the main package's copy, wiki.go |
| `Templates` | templates.dfy | the functions the page templates call (templates.go) |
| `Errors` | errors.dfy | error texts and the deferred panic handlers (errors.go) |

Several pieces of the code exist twice, and the model gives each of them one definition:
- `pad`, `encryptPage` and `decryptPage` in main.go:25-66 are the algorithm of encryption.go. They run over
  the global DES cipher, and `PageCipher` models them together with the encryption.go versions.
- `setAttributeValue`, `isUnsupportedLink`, `trimPageName` and `getWikiInformationByUrl` in wiki.go are
  the same code as in wikis/wikis.go. They are modelled once, in `Wikis`. `readSupportedWikis` in wiki.go is
  not the same: it reads the fixed path config/supported_wikis into a map of its own, and `init` panics on
  an error and otherwise replaces the package map with the result. wikis/wikis.go's `ReadSupportedWikis`
  merges the decoded entries into the package map. Each has its own model.
- game.go is the model of a game. Its `NewGame` takes two arguments, whereas game_store.go:58 calls it with
  three; the model uses the two-argument form.

Abstractions:
- A Go `string` is a Dafny string whose characters stand for bytes.
- DES is any pair of functions on 8-byte blocks whose decryption undoes its encryption. As Go's
  `cipher.Block` does, `Encrypt(dst, dst)` transforms only the first block of the buffer.
- SHA-1 is a function from everything written into the hasher so far to 20 bytes.
- JSON is a pair of functions between a game's record and bytes.
- A panic is an `Err` result.
- Every value that I/O would produce is a parameter: the outcome of a disk write, of reading a file, and of
  `url.QueryUnescape`.

Most of the code changes state in place, and so does the model:
- `Game`, `Player`, `Store`, `GameStore`, `GameHasher`, `GameSession`, `SocketHandler`,
  `BaseGameMessage`, `Node` and `Registry` are classes.
- Their methods carry `modifies` clauses and state the new state in terms of the old one.
- `pad` copies into a fresh array, and the cipher rewrites that array in place.

## Model

| member | source | states |
|---|---|---|
| `Bytes.FromToBytes` | encryption.go:33-58 | converting a byte string to bytes and back gives the string back |
| `Base64.IndexOfCharOf` | encryption.go:37-50 | every 6-bit value's alphabet character decodes to that value |
| `Base64.EncodeChars` | encryption.go:37 | every character of an encoding is in the base64url alphabet or is `=` |
| `Base64.DecodeEncode` | encryption.go:37-50 | decoding an encoding gives back the bytes, for every byte sequence |
| `Base64.Decode` | encryption.go:50 | a decodable input has a length that is a multiple of 4 and yields at most 3 bytes per 4 characters |
| `TokenFormat.DecimalValue` | encryption.go:37 | the digits `%d` prints for a count read back as that count |
| `TokenFormat.ParseFormat` | encryption.go:37-44 | scanning `"%d:%s"` of a count and a blank-free non-empty word gives back the count and the word |
| `TokenFormat.ParseToken` | encryption.go:44 | a successful scan yields a count that fits a 64-bit int and a non-empty, blank-free word |
| `PageCipher.PaddedLengthIsLeastMultiple` | encryption.go:17-21 | the padded length is the least multiple of the block size that is at least the input length; the fill count is in [0, size) and 0 exactly for a multiple |
| `PageCipher.Pad` | encryption.go:14-26 | the buffer is the input followed by zeros up to the padded length and the count is the fill; an input of whole blocks is returned itself with count 0, any other gets a fresh buffer |
| `PageCipher.CryptInPlace` | encryption.go:35 | a buffer of at least one block has its first block transformed and the rest unchanged; a shorter one panics and is left alone |
| `PageCipher.PageToken` | encryption.go:32-38 | the token `EncryptPage` returns; `EncryptFailsOnlyOnEmpty`, `TokenShape` and `DecryptEncrypt` state what it is |
| `PageCipher.PagePlain` | encryption.go:40-59 | the page `DecryptPage` returns; `DecryptEncrypt`, `DecryptRejects` and `NegativeCountReadsIntoCapacity` state when it fails and what it gives |
| `PageCipher.EncryptPage` | encryption.go:32-38 | the token is `PageToken`, the function the lemmas below are about |
| `PageCipher.DecryptPage` | encryption.go:40-59 | the page is `PagePlain`, the function the lemmas below are about |
| `PageCipher.EncryptFailsOnlyOnEmpty` | encryption.go:32-38 | encryption panics exactly on the empty page, which holds no block |
| `PageCipher.TokenShape` | encryption.go:32-38 | a token is a fill count below 8, 0 exactly for whole blocks, then `:`, then base64url of the enciphered padded bytes |
| `PageCipher.DecryptEncrypt` | encryption.go:32-59 | decrypting the token of any non-empty page gives the page back |
| `PageCipher.DecryptRejects` | encryption.go:44-58 | decryption panics on an unreadable `<int>:` frame, on a payload that is not base64url, on a payload of less than one block, and on a count that cuts below zero or past the buffer's capacity |
| `PageCipher.NegativeCountReadsIntoCapacity` | encryption.go:50-58 | a negative count that stays within the decode buffer's capacity is accepted and yields trailing zero bytes |
| `Store.Store.PutMarshal` | store.go:24-36 | a marshal error leaves the store untouched; otherwise the key is erased and written, so it holds exactly the new bytes, or is absent after a failed write; no other key changes |
| `Store.Store.GetMarshal` | store.go:38-46 | a missing key is an error; otherwise the result is the unmarshalled file |
| `Store.Store.Contains` | store.go:48-55 | true exactly when the key is stored |
| `GameHasher.HexInjective` | game_store.go:35 | distinct digests give distinct hex names |
| `GameHasher.GameHasher.NewGameHash` | game_store.go:30-45 | the name is not a stored key, is the 40-character lower-case hex of the current digest, and the hasher has received the player name plus one byte `i & 0xFF` per taken name |
| `Session.InitEstablishes` | session.go:30-59 | after `Init(p, g)` the session is initialised and reads `p` as its player and `g` as its game |
| `Session.InvalidateClears` | session.go:36-59 | after `Invalidate` the session is not initialised and both names read as empty |
| `Session.GameSession.Init` | session.go:30-34 | only the keys hash, name and initialized change |
| `Session.GameSession.Invalidate` | session.go:36-40 | only the keys hash, name and initialized change |
| `Session.GameSession.IsInitialized` | session.go:44-51 | true exactly when "initialized" holds the boolean true; absent or not a bool reads false |
| `Session.GameSession.PlayerName` | session.go:53-55 | the name when it is a string; an absent or non-string value panics |
| `Session.GameSession.GameHash` | session.go:57-59 | the hash when it is a string; an absent or non-string value panics |
| `Game.AfterVisit` | player.go:36-46 | after a visit the path ends with the page, extends the old path and grows by at most one |
| `Game.VisitReload` | player.go:41-43 | a reload of the current page leaves the path unchanged |
| `Game.VisitAppends` | player.go:45 | any other page is appended exactly once |
| `Game.VisitKeepsNoRepeats` | player.go:41-45 | a visit keeps a path free of equal adjacent pages |
| `Game.VisitAllNoRepeats` | player.go:36-46 | a path built only by visits has no equal adjacent pages and is no longer than the visits |
| `Game.Judge` | game.go:88-98 | a player leads exactly when no winner path is recorded or theirs is strictly shorter; a full winner is never declared |
| `Game.RecordedPathShrinks` | game.go:92-111 | once recorded, the winner path never gets longer, and a change makes it strictly shorter |
| `Game.ReevaluationRefused` | game.go:92-111 | re-evaluating the recorded winner with the same path reports no lead |
| `Game.FirstEvaluationLeads` | game.go:92 | the first player evaluated always leads |
| `Game.IndexOfName` | game.go:62-78 | the lowest roster index with the name, or -1 exactly when no entry has it |
| `Game.IndexOfRecord` | game.go:62-69 | the lowest index of a stored roster entry with the name, or -1 exactly when no stored entry has it |
| `Game.IndexOfStoredRoster` | game_store.go:73 | a roster and its stored form find a name at the same index, and the entry found stores as the record found |
| `Game.NewPlayers` | game_store.go:73 | unmarshalling a roster makes one new player per record, in order, distinct and unbound |
| `Game.Player.Bind` | player.go:30-31 | the player is bound to the session and the game; path and left flag unchanged |
| `Game.Player.Visited` | player.go:36-46 | the path becomes `AfterVisit` of the old path; nothing else changes |
| `Game.Player.LastVisited` | player.go:48-56 | the last page of a non-empty path; the game's start page for an empty path; a nil dereference without a game |
| `Game.LessIsStrictOrder` | player.go:61 | comparing by path length is irreflexive, asymmetric and transitive |
| `Game.Swap` | player.go:62 | positions i and j are exchanged, all others kept, the contents a permutation |
| `Game.Game.constructor` | game.go:33-42 | the host is the only player, with an empty path; winner, path, start, goal and hash are empty |
| `Game.Game.AddPlayer` | game.go:56-60 | exactly one new player with the name and an empty path is appended, without a duplicate check; earlier entries and every other field are unchanged |
| `Game.Game.GetPlayer` | game.go:62-69 | the first roster entry with the name, the entry itself; none exactly when no entry has the name |
| `Game.Game.HasPlayer` | game.go:71-78 | true exactly when some roster entry has the name, that is when `GetPlayer` finds one |
| `Game.Game.SetWinner` | game.go:80-86 | winner and winner path become the player's; nothing else changes |
| `Game.Game.EvaluateWinnerOf` | game.go:88-98 | the verdict is `Judge` of the recorded path and the player's path |
| `Game.Game.EvaluateWinner` | game.go:106-114 | a lead is recorded as winner and winner path, otherwise nothing changes; roster and settings never change |
| `Game.Game.GetWinner` | game.go:116-126 | none while no winner is recorded, otherwise the first roster entry with the winner's name |
| `Game.Game.Hash` | game.go:48-54 | the generator is asked only while no hash is cached; it then yields the hex digest of the hasher's bytes, a name not in the store, after the host name and one retry byte per taken name were written; later calls return the cached hash and leave the hasher alone |
| `Game.Game.Load` | game_store.go:68-73 | a game loaded from a record reproduces the record, has fresh unbound players and no cached hash |
| `GameStore.GameStore.NewGame` | game_store.go:57-59 | a fresh game with the host as its only player |
| `GameStore.GameStore.GetGameByHash` | game_store.go:61-85 | a pooled hash returns the pooled game; a missing or unreadable game is an error with the pool unchanged; otherwise the loaded game caches the hash and is pooled, so later calls return it |
| `GameStore.GameStore.Fetch` | game_store.go:71-80 | the stored record becomes a fresh game that caches the requested hash, or an error |
| `GameStore.GameStore.Pool` | game_store.go:82 | the game is added to the pool under its hash, keeping the pool's invariant |
| `GameStore.GameStore.GameSaveHandler` | game_store.go:47-55 | the game is stored under its hash; a failed write panics with the disk's error and loses the old file; the game itself is unchanged |
| `SessionGame.GetGame` | session.go:61-63 | the game store's `GetGameByHash` of the session's hash; a session without a string hash panics; a game loaded on the spot carries exactly the stored record |
| `SessionGame.PlayerFromSession` | player.go:16-34 | the session's game is found exactly when it was pooled or the store holds a record for it that decodes; the call then fails exactly when the roster has no entry with the session's name, and otherwise returns that entry itself, bound to the session and the game; a pooled game's record is unchanged, a game loaded on the spot has the stored record, so the entry's record is the first stored one with the name; the pool's invariant is kept |
| `SessionGame.Locate` | player.go:18-28 | the look-ups alone: the game found, the entry found as in `PlayerFromSession`, before the entry is bound; the entry was pooled or is fresh |
| `SessionGame.Claim` | player.go:30-31 | the entry is bound to the session and the game; what the look-ups established, every record, the pool and its invariant are unchanged |
| `SessionGame.FindPlayer` | player.go:24-28 | the first roster entry with the session's player name, or an error |
| `Messages.BaseGameMessage.constructor` | message.go:68-70 | type, player name and text as given, no recipient yet |
| `Messages.BaseGameMessage.AddressTo` | message.go:29-31 | only the recipient changes |
| `Messages.NewJoinMessage` | message.go:72-74 | type join (1), the player's name, text "joined" |
| `Messages.NewLeaveMessage` | message.go:76-78 | type leave (2) with the session's player name as name and text; panics exactly without a string name |
| `Messages.NewFinishMessage` | message.go:80-94 | type finish (3) naming the session's player, counting that player's visits; the game is found exactly when pooled or stored and decodable, and the call panics exactly when the player is not on its roster; for a game not pooled before, it succeeds exactly when the stored roster has the name, with that stored record's path; the pool's invariant is kept |
| `Messages.NewVisitMessage` | message.go:96-101 | type visit (0), the session's player name, the page as text |
| `Messages.NewGameOverMessage` | message.go:103-105 | type gameover (4) with the session's player name as name and text |
| `Socket.ReachedAppend` | socket.go:38-41 | one more send reaches exactly one more client |
| `Socket.SocketHandler.Broadcast` | socket.go:35-42 | exactly one send per client registered for the game, none with no registrations; the shared message ends up addressed to the client of the last send |
| `Socket.SocketHandler.LazyRemoveClient` | socket.go:44-49 | the connection leaves the game's set; an absent game is a no-op, other games are unchanged, and the game's entry stays |
| `Socket.SocketHandler.NewConnection` | socket.go:51-64 | a no-op unless the store holds the game's hash; then the connection joins the game's set in the global handler, whatever the receiver |
| `Socket.AddIdempotent` | socket.go:57-63 | registering a connection twice is registering it once |
| `Handlers.ServiceVisitUrl` | main.go:68-76 | the visit link of a page; `VisitUrlCarriesPage` states that it panics exactly on "" and otherwise carries a token that decrypts to the page |
| `Handlers.VisitUrlCarriesPage` | main.go:68-76 | panics exactly on the empty page; otherwise the link is "/visit?page=" and a token that decrypts to the page |
| `Handlers.Join` | main.go:230-285 | an empty id or name changes nothing; the game is loaded exactly when id and name are given, the store holds the id and the game is pooled or decodes; a game loaded on the spot starts from the stored roster and winner; a taken name or a won game is then refused with nothing changed; otherwise one player is appended, the session initialised and the game stored, or its file lost when the write fails; the pool's invariant is kept |
| `Handlers.Open` | main.go:259-263 | the game is found exactly when pooled or stored and decodable, and is then pooled under the id; a pooled game is returned as it was; a loaded one carries the stored roster and winner, and a name sits at the same roster index as in the stored roster |
| `Handlers.Admit` | main.go:265-284 | a taken name or a won game is refused with roster, session and store unchanged; otherwise the admission of `Enrol` follows; earlier roster records and the pool's invariant are kept |
| `Handlers.Enrol` | main.go:275-284 | one player with the name and an empty path is appended, the session initialised; the game is stored under its id, or the write failure panics with the disk's error and the file is gone |
| `Handlers.Lookup` | main.go:124-134 | succeeds exactly when the session's game is pooled, or loadable and then pooled, and its roster has the session's name; the result is that game and that roster entry; for a game pooled before the call it is the pooled game and an entry of its roster, whose path is unchanged; for a game loaded on the spot the game and the entry carry the stored records; the pool's invariant is kept |
| `Handlers.Identify` | main.go:130-134 | in a pooled game, succeeds exactly when the roster has the session's name, with that entry's path unchanged and its record the first one with the name; pool, game record and store unchanged |
| `Handlers.Arrive` | main.go:136-165 | the page is recorded in the path first, then the goal is judged, or the visit announced with the recorded lead unchanged; the game's hash and the pool's invariant are kept |
| `Handlers.JudgeGoal` | main.go:141-158 | at the goal, a new leader is recorded and a finish message counting the visits is sent to every client; otherwise nothing is sent and the recorded lead stands; the game's hash and the pool's invariant are kept |
| `Handlers.Proclaim` | main.go:143-148 | a winner makes every client receive a game-over message, else a new leader a finish message; otherwise nothing is sent |
| `Handlers.GameOver` | main.go:145 | every client of the game is sent a game-over message naming the player |
| `Handlers.NewLeader` | main.go:147 | every client of the game is sent a finish message naming the player and counting the visits |
| `Handlers.FinishOf` | message.go:80-94 | for a player the session locates, the finish message cannot fail: it names the player and counts the visits |
| `Handlers.Announce` | main.go:160-164 | every client of the game is sent one visit message naming the player and the page |
| `Handlers.Play` | main.go:124-165 | a session without a game is refused; it proceeds exactly when the session's game is found and lists the session's name, and the session's player then arrives at the page; for a game pooled before the call the pool is unchanged, and the player arrives from its earlier path with the game's earlier lead; for a game loaded on the spot it proceeds exactly when the stored roster has the name, from that stored path and the stored lead; the pool's invariant is kept |
| `Handlers.Prepare` | main.go:124-134 | `Lookup`, with the player's path and the game's lead as found: for a pooled game the earlier path and lead, for a loaded one the stored path and lead, and a refusal exactly when the stored roster lacks the name |
| `Handlers.Visit` | main.go:100-171 | proceeds exactly when the token decrypts, the page unescapes, the session is initialised and its game lists its name; a refusal before the look-up leaves the pool unchanged, and so does any call for a game pooled before it; otherwise the decrypted page is visited, for a pooled game by a roster entry from its earlier path with the game's earlier lead, for a game loaded on the spot from the stored path and the stored lead; the pool's invariant is kept |
| `Wikis.FirstKey` | wikis/wikis.go:31-32 | the index of the first attribute with the key, or the length when none has it |
| `Wikis.LookupFindsFirst` | wikis/wikis.go:208 | `Attr` reads nothing exactly when no attribute has the key, otherwise the value of the first one with it |
| `Wikis.SetAttribute` | wikis/wikis.go:30-45 | the attributes `setAttributeValue` leaves; `SetAbsentAppends`, `SetPresentReplaces`, `SetHref`, `SetOtherKey` and `SetOtherPresentDropsKey` state what they are |
| `Wikis.SetAttributeValue` | wikis/wikis.go:30-45 | the node's attributes become `SetAttribute` of the old ones |
| `Wikis.SetAbsentAppends` | wikis/wikis.go:39-42 | an absent key is appended under its own name after the unchanged attributes |
| `Wikis.SetPresentReplaces` | wikis/wikis.go:31-35 | a present key's first occurrence is cut out, the others stay in order, an attribute keyed "href" is appended, the length is unchanged |
| `Wikis.SetHref` | wikis/wikis.go:30-45 | setting "href" on a list with at most one href makes it read the new value and keeps it single |
| `Wikis.SetOtherKey` | wikis/wikis.go:30-45 | setting one key leaves the value another present key reads |
| `Wikis.SetOtherPresentDropsKey` | wikis/wikis.go:34 | setting a present key other than "href" makes it disappear, as the replacement is keyed "href" |
| `Wikis.IsUnsupportedLink` | wikis/wikis.go:140-142 | whether the rewriter refuses a link; `SupportedLinkShape` states that it accepts exactly "/wiki/" and a colon-free page |
| `Wikis.SupportedLinkShape` | wikis/wikis.go:140-142 | a link is supported exactly when it is "/wiki/" followed by a page name without a colon |
| `Wikis.TrimPageName` | wikis/wikis.go:257-259 | the page name after "/wiki/"; `TrimPageNameInverts` states that it inverts the prefix and panics exactly below six characters |
| `Wikis.TrimPageNameInverts` | wikis/wikis.go:257-259 | trimming inverts prefixing with "/wiki/", panics exactly below six characters, and otherwise drops exactly six |
| `Wikis.Classify` | wikis/wikis.go:207-232 | the branch `hrefRewriter` takes for an anchor; `ClassifyCases` states each case as an if-and-only-if |
| `Wikis.ClassifyCases` | wikis/wikis.go:207-232 | an anchor is kept exactly without an href or with a fragment href, disabled exactly with an unsupported href, redirected exactly with "/wiki/" and a colon-free page |
| `Wikis.DisableLink` | wikis/wikis.go:223-228 | a gray style is appended, then the href and the onClick alert are set |
| `Wikis.Rewritten` | wikis/wikis.go:204-235 | the attributes an anchor has after `hrefRewriter`; `RedirectedHref`, `DisabledHref` and `DisabledOnClick` state them |
| `Wikis.RewriteHref` | wikis/wikis.go:204-235 | the anchor's attributes become `Rewritten` of the old ones for the translator |
| `Wikis.RedirectedHref` | wikis/wikis.go:232-234 | a redirected anchor reads the translated page as its href and keeps its length |
| `Wikis.DisabledHref` | wikis/wikis.go:223-227 | a disabled anchor reads "#" and the link as its href and is gray |
| `Wikis.DisabledOnClick` | wikis/wikis.go:228 | a disabled anchor without onClick gets the alert; one it had is lost |
| `Wikis.FixUrls` | wikis/wikis.go:276-280 | same keys, and every entry's URL becomes its key |
| `Wikis.Registry.constructor` | wikis/wikis.go:17 | the package map starts out empty |
| `Wikis.Registry.ReadSupportedWikis` | wikis/wikis.go:261-283 | a read or decode error is returned with the map unchanged; a JSON `null` empties the map; otherwise the decoded entries merge into the map, replacing entries of the same key, and every URL becomes its key |
| `Wikis.Wiki.PageLink` | wikis/wikis.go:54-56 | a wiki's link to a page; `Wikis.Registry.ByURLPageLink` and `WikiPages.PageLinkRoundTrip` state that trimming the part after the URL gives the page |
| `Wikis.Registry.ByURL` | wikis/wikis.go:289-292 | the registered wiki, or the zero wiki for an unknown URL; `Wikis.Registry.ByURLPageLink` states both cases |
| `Wikis.Registry.ByURLPageLink` | wikis/wikis.go:54-56 | a known wiki's page link is its URL, "/wiki/" and the page, which trimming gives back; an unknown URL gives the zero wiki |
| `WikiPages.ReadSupportedWikis` | wiki.go:275-299 | a read or decode error is returned; a JSON `null` gives the empty map; otherwise the result has exactly the decoded keys, each entry with its URL set to its key, and nothing is merged with an earlier map |
| `WikiPages.BuildWikiPageLink` | wiki.go:55-57 | the link to a page on a wiki; `PageLinkRoundTrip` states that it is the wiki's page link and that trimming gives the page |
| `WikiPages.PageLinkRoundTrip` | wiki.go:55-57 | `buildWikiPageLink` is the wiki's page link; after the URL it is supported exactly for a colon-free page, and trimming gives the page |
| `WikiPages.VisitRewritten` | wiki.go:194-222 | the anchor after wiki.go's rewriter, or its panic; `PanicsOnBareLink` and `RedirectCarriesPage` state when it panics and where a redirect points |
| `WikiPages.RewriteHref` | wiki.go:194-222 | the anchor becomes `VisitRewritten` of the old one, or is left alone when `serviceVisitUrl` panics |
| `WikiPages.PanicsOnBareLink` | wiki.go:194-222 | the rewriter panics exactly on the href "/wiki/", whose page name is empty |
| `WikiPages.RedirectCarriesPage` | wiki.go:212-219 | a supported link to a non-empty page points to the visit handler with a token that decrypts to the page |
| `Templates.FormatWikiUrl` | templates.go:25-27 | same length, each underscore replaced by a space and every other character kept |
| `Templates.FormattedHasNoUnderscore` | templates.go:25-27 | no underscore is left and every other character stays in place |
| `Templates.FormatIdempotent` | templates.go:25-27 | formatting twice is formatting once |
| `Templates.IsWinner` | templates.go:28-31 | always false, yet a lead is recorded as the winner |
| `Templates.IsTemporaryWinner` | templates.go:32-35 | true exactly when the player leads, and the lead is then recorded |
| `Errors.NoSuchGameMessage` | errors.go:22-24 | the text of `ErrNoSuchGame`; `NoSuchGameMessageNamesGame` states that the id can be read back from it |
| `Errors.NoSuchGameMessageNamesGame` | errors.go:22-24 | the game id can be read back from the message, so distinct ids give distinct messages |
| `Errors.UserFriendlyError` | errors.go:27-46 | the friendly text of an error, or a panic; `FirstMatch` and `EveryErrorIsStartAndGoal` state which text each error gets |
| `Errors.FirstMatch` | errors.go:27-46 | a type switch answers exactly when some case matches, with the first matching case's text |
| `Errors.EveryErrorIsStartAndGoal` | errors.go:10-46 | every error gets the "intertubes" text, never the no-such-game one; a nil error panics |
| `Errors.UserFriendlyErrorHandler` | errors.go:71-96 | the recovered panic turned into an error page or re-raised; `ErrorHandlerCatchesEverything` states the outcome of the chain |
| `Errors.CommonErrorHandler` | errors.go:55-69 | a recovered panic turned into a 401 crash report naming it; `ErrorHandlerCatchesEverything` states it |
| `Errors.ErrorHandler` | errors.go:105-110 | the handler wrapped in both deferred handlers; `ErrorHandlerCatchesEverything` states that no panic escapes it |
| `Errors.ErrorHandlerCatchesEverything` | errors.go:55-110 | no panic escapes: no panic gives the normal response, an error gives the error page, any other value a 401 crash report naming it |

## Left out

- HTTP, routing, template rendering and cookies are not modelled: `startHandler`, `gameHandler`,
  `indexHandler`, `reloadHandler`, `main`, `MustExecuteTemplate`, `WikiPageRenderer` and the error handler
  at main.go:78, a second `errorHandler` beside the one in errors.go. `parseTemplates` in main.go is a
  second copy of the one in templates.go; only the template functions are modelled.
- The websocket server loop `SockServer`, the goroutines and the channel fan-out are not modelled; a send
  on a client's channel is a recorded `Send`.
- The winner lock is not modelled; the model is sequential.
- HTML parsing and page fetching are not modelled: `ServeWikiPage`, `PageTitle`/`fetchWikiPageTitle`,
  `DetermineStartAndGoal`, `FirstParagraph`/`GetFirstWikiParagraph`, `removeLinksFromImages`, `htmlContent`
  and `addCSSOverride`. A node is its attribute list, and selecting the anchors of a page is left out.
- DES (FIPS 46-3) and SHA-1 (FIPS 180-4) are not modelled: they are an invertible pair of block functions
  and a digest function of the written bytes. The startup key and the time-stamp seed of the hasher are
  parameters.
- JSON and diskv are functions given by the caller. A decode that fails halfway and leaves part of the
  fields filled is not modelled; a failed decode changes nothing.
- `pad` computes the padded length with a float ceiling. The model uses integer ceiling division; the
  two differ only for lengths beyond 2^53, where a float64 loses integer precision.
- `Sscanf` is modelled with ASCII blanks only; Unicode spaces are not recognised as separators.
- `SortablePlayers.Len` returns the length of the slice and has no model of its own.
- The call `gameStore.Save(game)` in `joinHandler` names a method game_store.go does not define; the model
  saves with `gameSaveHandler`.
- `GetGameByHash` builds an empty game with `NewGame("", nil)` and decodes into it. The model builds the
  loaded game directly from the record (`Game.Game.Load`), which leaves the same fields.
- Go's `Players []Player` holds values. A pointer `GetPlayer` returned goes stale when a later `append`
  reallocates the slice. The model keeps roster entries as objects, so that aliasing is not modelled.
- The error `PlayerFromSession` returns for an unknown player names the game by `game.Hash()`, which asks
  the generator when no hash is cached; the model's error text uses the cached hash and asks nothing.
- The setAttributeValue error result is always nil and is not modelled.
- `GameHasher.GameHasher.NewGameHash` requires that some number of retries reaches a free name (`CanMint`).
  The Go loop never ends when every retry is taken; that non-termination is not modelled.
- `Game.Game.Hash` inherits that requirement through `CanHash` when no hash is cached.
- `GameStore.GameStore.GameSaveHandler` inherits the same requirement through `CanHash`.
- `Socket.SocketHandler.NewConnection` inherits the same requirement through `CanHash`.
- `Store.Store.Write` assumes that a failed diskv write leaves no file behind. A partial file from a failed
  write is not modelled.
- `init` in wiki.go also sets the response-header timeout of the default HTTP transport; that is not
  modelled.
- Logging and stack traces in errors.go are not modelled.
- game_test.go expects no temporary winner at the start (`TestNobodyWonSimpleGameAtStart`) and a full winner
  at the goal (`TestWinnerSimple`). game.go does neither, and the model follows game.go (`Game.FirstEvaluationLeads`,
  `Game.Judge`).
- The package map of wikis/wikis.go starts out nil; writing into a nil map panics in Go, but `json.Unmarshal`
  allocates it first, so the model starts from the empty map.
- The browser scripts and the network tests are not modelled.
