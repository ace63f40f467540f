# War game server: a Dafny model

This project models the server side of a two-player game of War (`war.py`). It has four parts:

- **Cards** (`cards.dfy`). Two cards are compared by rank, where the rank is the card value mod 13. A shuffled deck of the 52 cards 0..51 is dealt into two hands of 26.
- **Wire** (`wire.dfy`). This part holds:
  - the protocol's command and result bytes;
  - 2-byte messages;
  - the GAMESTART and PLAYRESULT frames;
  - a model of a peer's socket as the chunks that successive `recv` calls deliver;
  - `readexactly`, an imperative loop that accumulates chunks until exactly `numbytes` bytes are held, or reports the end of the stream.
- **Referee** (`referee.dfy`). `play_game` is the per-game referee. It has two parts:
  - `Serve` is the reference definition. It is a function from everything each peer sends, and the shuffled deck, to a `Session`. A session holds the frames sent to each peer, in order, and how the game ended: `Completed` after 26 rounds, or `Killed`.
  - `PlayGame` is the imperative method. It follows `play_game` step by step and is proved equal to `Serve`. It checks WANTGAME from both peers, sends GAMESTART, keeps the two mutable remaining-hand sets, and runs 26 rounds. Each round reads two PLAYCARD messages, runs the anti-cheat membership check, removes both cards, computes the results and sends them.
- **Pairing** (`pairing.dfy`). This is the accept loop's `waiting_clients` queue. It is modelled as a class, `Dispatcher`, whose `Arrive` method appends a connection. When two connections are waiting, it pops the two oldest as the players of a new game. `PairUp` is the reference fold over a run of arrivals.

`Options` (`options.dfy`) holds the `Option` datatype.

Any violation in `war.py` ends in a single outcome: the game is killed and both sockets are closed. The model follows this. Wrong command, wrong payload, an illegal card and an early close all lead to `Killed`. They are not split into separate error kinds. The frames already sent before the kill are kept in the session.

## Model

| member | source | states |
|---|---|---|
| Cards.CompareCards | war.py:76-83 | The result is -1, 0 or 1. It is 1 exactly when the first card's rank (value mod 13) is higher, and -1 exactly when it is lower. |
| Cards.CompareAntisymmetric | war.py:81-83 | Swapping the cards negates the comparison. |
| Cards.CompareRankOnly | war.py:81 | Cards of equal ranks compare the same: the comparison depends on `card % 13` only. |
| Cards.CompareEqualRanks | war.py:81-83 | The comparison is 0 exactly when the ranks are equal. A card ties with itself, and 5 against 18 is a draw. |
| Cards.DealCards | war.py:86-94 | For any permutation of 0..51, the deal gives two hands of 26 cards, each in 0..51. |
| Cards.DealPartitionsDeck | war.py:92-94 | The deal partitions the deck. Each hand has 26 distinct cards, the hands are disjoint, and together they hold exactly {0..51}. |
| Wire.Messages | war.py:109 | A peer's bytes are read as consecutive 2-byte (command, payload) messages. Message k is bytes 2k and 2k+1, and a trailing odd byte is never a message. |
| Wire.FlattenLength | war.py:146-147 | Sending n frames of the same size puts n times that many bytes on the wire. |
| Wire.Recv | war.py:53 | `recv(bufsize)` returns at most `bufsize` bytes. It returns the empty string exactly when the peer has closed. What it returns, followed by what arrives after it, is what the peer delivers. |
| Wire.ReadExactly | war.py:45-57 | When the peer delivers at least `numbytes` bytes, the result is exactly its first `numbytes` bytes and the stream is left just after them. Otherwise the result is end-of-stream, not a short read. |
| Referee.RoundResults | war.py:136-144 | The two results are complementary. Player 1 wins exactly when its card's rank is higher and loses exactly when it is lower. Equal ranks give (DRAW, DRAW). |
| Referee.PlayRound | war.py:124-134 | A round is accepted exactly when both command bytes are PLAYCARD and each card is still in its owner's remaining hand. |
| Referee.RoundRemovesPlayedCards | war.py:130-144 | An accepted round removes exactly the two played cards and nothing else. Each hand shrinks by one, and the results are those of comparing the two cards. |
| Referee.AwaitWantGame | war.py:107-111 | Reading 2 bytes succeeds with (0, 0) exactly when the peer's first message is WANTGAME 0. It then consumes exactly those 2 bytes. |
| Referee.PlayGame | war.py:104-157 | The imperative referee produces exactly the session `Serve` defines. This is the same frames to each peer, in the same order, with the same ending. |
| Referee.WantsGameBytes | war.py:109-110 | A peer asks for a game exactly when its first two bytes are [0, 0]. |
| Referee.GameStartOnlyAfterWantGame | war.py:107-116 | A GAMESTART goes to player 1 exactly when both peers' first two bytes are [0, 0], and then it goes to player 2 as well. Otherwise nothing is sent and the game is killed. |
| Referee.GameStartCarriesOwnHand | war.py:113-116 | Each peer's GAMESTART is 27 bytes: command byte 1 followed by that peer's own dealt hand, which shares no card with the opponent's hand. |
| Referee.RoundsCount | war.py:121-147 | Both peers receive the same number of result frames. There are never more frames than rounds, or than messages either peer sent. All rounds are played only if every round sent its frames. |
| Referee.RoundResultAt | war.py:136-147 | The k-th result frame of each peer is [3, result], where the result compares the two cards played in round k. |
| Referee.RoundsShrinkHands | war.py:130-134 | The remaining hands only shrink. After n accepted rounds each hand has lost exactly n cards. |
| Referee.FinishedEmptiesHands | war.py:119-134 | After 26 accepted rounds on 26-card hands, both remaining hands are empty. |
| Referee.LegalPlaysStep | war.py:128-134 | A sequence of plays is legal exactly when the first one is a PLAYCARD of a card in the hand and the rest are legal in the hand without that card. |
| Referee.FinishedIffLegal | war.py:121-134 | All n rounds are accepted exactly when each peer's next n messages are PLAYCARDs of distinct cards from its own remaining hand. |
| Referee.CompletedIffLegal | war.py:107-150 | A game completes exactly when both peers send WANTGAME 0 and then 26 PLAYCARDs of distinct cards of their own dealt hands. Any other input kills it. |
| Referee.StartedSession | war.py:113-147 | Once a GAMESTART is sent, each peer's frames are its GAMESTART followed by the result frames of the rounds played. The game completes exactly when all 26 rounds are played. |
| Referee.SessionResultFrames | war.py:136-147 | Frame k >= 1 sent to each peer is the PLAYRESULT of round k, computed from the two cards played in it. |
| Referee.RoundsBytes | war.py:146-147 | Each PLAYRESULT frame is 2 bytes on the wire. |
| Referee.CompletedSession | war.py:115-147 | Both peers always receive the same number of frames, at most 27. A completed game sends each peer 27 frames, which is 79 bytes, and leaves both remaining hands empty. |
| Referee.ReplayKills | war.py:128-150 | A peer that plays the same card in two of the 26 rounds always gets the game killed. |
| Referee.ForeignCardKills | war.py:128-150 | A peer that plays, in any round, a card not dealt to it always gets the game killed. |
| Referee.DrawRound | war.py:130-144 | Cards 5 and 18 draw. Afterwards neither card can be played again by its owner. |
| Pairing.PairUpInOrder | war.py:170-174 | Pairing is FIFO. Game k is arrivals 2k and 2k+1, and at most the latest arrival is left waiting. |
| Pairing.NoClientInTwoGames | war.py:170-174 | When all connections are distinct, no game pairs a connection with itself, no two games share a connection, and no waiting connection is in a game. |
| Pairing.Dispatcher.constructor | war.py:24 | The queue starts empty, with no arrivals and no games. |
| Pairing.Dispatcher.Arrive | war.py:170-174 | An arrival at an empty queue waits. An arrival when one connection waits pops both, oldest first, as a new game and empties the queue. At most one connection is ever left waiting. |
| Pairing.ServeArrivals | war.py:166-178 | The accept loop starts exactly the games of the FIFO pairing of the arrivals: game k is arrivals 2k and 2k+1, and at most one arrival is left unpaired. |

## Left out

- Sockets: creation, bind, listen and accept (war.py:159-168). Arrivals are a finite sequence of connection ids, and the infinite accept loop becomes a loop over that sequence.
- `sendall` (war.py:115-116, 146-147): a send is modelled as appending a frame to the peer's sent list, and it always succeeds. A failing `sendall` would kill the game in `war.py`, and the model does not cover that.
- `recv` errors such as a connection reset: are not modelled. A peer's input ends only by an orderly close, which `war.py` also treats as a kill.
- Stalls: a peer that neither sends nor closes blocks `readexactly` in `sock.recv` forever (war.py:52-53, no timeout), so `play_game` neither completes nor kills the game. A peer's input in the model is a finite sequence of chunks, so the model covers only runs in which every read returns: `ReadExactly` always returns bytes or end-of-stream, and every session ends `Completed` or `Killed`.
- `kill_game` and the `finally` close (war.py:60-73, 149-157): shutdown and close are OS I/O. They become the session's `Killed` or `Completed` ending.
- Threads (war.py:176-178): each game is an isolated sequential run, and the pairing queue is accessed by a single caller.
- `random.shuffle` (war.py:93): the deck is any permutation of 0..51, given as a parameter with a precondition.
- The asyncio client, `limit_client`, the semaphore and `main` (war.py:183 onward): these are client-side networking and argument parsing.
- Logging calls: they have no effect on the protocol.
- test_multiple_games.py is not part of this model. It is an integration test over real TCP connections.
- The error taxonomy: `war.py` kills the game the same way on every violation. The model has one `Killed` ending and does not tell framing errors, protocol violations, illegal moves and transport errors apart.
