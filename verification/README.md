# Verified model of the server core

The repository is a pair of game servers: a game server that clients connect to, and an account
server (SAAC) behind it. The model covers four of its parts.

* **The wire codec.** A message is stored or compressed with a 9-bit LZW code, packed into bits,
  scrambled with a key and an inserted sum byte, and armoured in 64 characters. `Lzw`,
  `LzwRoundTrip` and `LzwGreedy` treat the code sequences; `Compressor`, `Decompressor`,
  `BitPacker`, `WideFields`, `BitStream`, `Scrambler`, `Armour`, `Codec` treat the routines, in place, on their
  arrays; `ArmourDigits` says what the armour is without them, and `LiteralMasks` and
  `LiteralCodec` what the bit masks do as they are spelled.
  `LineBuffer`, `LineStream` and `Delivery` add the receive buffer and compose everything into
  one delivery theorem. `Tokenizer` is the splitting of a decoded message.
* **The hero leaderboard**, a hundred slots updated in place (`HeroList`).
* **The login protocol** between the two servers (`Connections`, `GameServer`, `AccountServer`,
  `LoginProtocol`, `ClientAnswers`): connections, a bag of messages that may be lost or overtake
  one another, clients that come and go, and a database that answers as it likes.
* **Small exact loops**: the UTF-8 name checks (`Utf8`), the table-driven check sum
  (`Polynomials`, `CrcTables`, `Crc`) and the field selector (`FieldSelector`).

Methods are proved against specification functions, and the theorems are about those functions.
`Bits` and `Bytes` hold what the modules share.

## Results that are not what the text of the program suggests

* The mask tables of the bit packer are binary digits spelled with a `0x` prefix. Read as they
  are spelled they keep one bit in four and reach past the end of a field, so a read can also take a
  bit of the next one. `LiteralMasks.LiteralMasksKeepExactly` says exactly which runs of fields
  survive, and two short runs do not (`LiteralMasksLoseBits`, `NeighbourSpoils`). For the codec this
  means that a compressed message whose codes are still legal when they are read begins with
  another byte afterwards, unless it began with one of four (`LiteralCodec.FirstByteIsLost`); a
  stored message does not go through the packer. Whether `char`
  is signed makes no difference: no byte written under these masks has its top bit set, and the
  masks that were meant fit in a byte. The packer, and everything above it, is proved for those:
  `first[m][w] = 2^min(8, m + w) - 1` and `second[m][w] = 2^max(0, m + w - 8) - 1`, and 0 for
  `w = 0`.
* `readInputBitStream` asks for the last piece of a field of 17 to 32 bits with a width above
  eight, which is refused, and whatever is read after it is read from too early a place.
  `WideFields.WideRunsKeepExactly` says which runs survive, and `SecondWideFieldShifts` shows one
  that does not. The codec uses fields of nine bits only.
* The compressor registers one last entry for the end of the text, with its mark 256 stored as
  byte 0. It is never used (`Compressor.PendingFound`).
* The compressor's test `position > codelen` never succeeds; the model leaves the branch out and
  carries the bound as an invariant instead.
* A new player with a floor above 140 on a list that has no floor below 140 goes to slot -1.
  `HeroList.TargetInRange` says exactly when; `HeroList.TopHundred` covers every run of named
  submissions without such a one.
* A client whose character cannot be loaded because the reply is successful but carries no data is
  told that it succeeded (`ClientAnswers.LoadsAreTrue` says that this is the only such case).
* The account server's check of the length of key and password can never fail for a login that
  this game server sends (`AccountServer.SentLoginsAreWellFormed`).

## Model

| member | source | states |
|---|---|---|
| LzwRoundTrip.RoundTrip | server/common/server_util.c:527-660 | for every non-empty byte string the codes that the compressor emits are all readable, and decompressing them writes out exactly that string |
| LzwRoundTrip.DictionariesInStep | server/common/server_util.c:527-660 | after n codes the decompressor's dictionary is the first min(n - 1, 255) entries of the compressor's, so the two loops stay one entry apart, through the not-yet-registered code and the full table |
| LzwRoundTrip.ReadsBack | server/common/server_util.c:543-660 | the inductive core: from any state in which the decompressor is one entry behind, what is still to be emitted decodes to the pending word followed by the unread text |
| LzwRoundTrip.EmitKeepsOneBehind | server/common/server_util.c:566-585 | emitting and registering on one side and reading on the other keep the dictionaries one entry apart |
| LzwRoundTrip.ReadPending | server/common/server_util.c:618-656 | the pending code can always be read, also when it is the entry that the decompressor has yet to make, and stands for the compressor's word |
| LzwRoundTrip.WordsFitTheStack | server/common/server_util.c:618-640 | on every legal code sequence each code is below 512 and its word has at most 256 bytes, so no guard on the stack or on a node index fires |
| Lzw.Expand | server/common/server_util.c:624-640 | a word over n entries has between 1 and n + 1 bytes, and at most two more than its code is above 257 |
| Lzw.Compressed | server/common/server_util.c:550-589 | a text of n bytes makes between 2 and n + 1 codes, the last of them 256 |
| Lzw.ReadIsSound | server/common/server_util.c:641-656 | whatever legal code is read, the table stays well formed and the remembered first byte is that of the code's word |
| LzwGreedy.WordsAreGreedy | server/common/server_util.c:550-589 | at every emission no word of the dictionary before it begins the unread text and is longer than the emitted one, and exactly that word extended by the next byte is learned, while there is room and there is such a byte |
| LzwGreedy.OnlyGreedyCut | server/common/server_util.c:550-589 | and the emissions, codes and dictionaries, are the only list of which that is true |
| LzwGreedy.ReadLearns | server/common/server_util.c:641-656 | whatever legal code is read after the first, the decompressor learns the word before it extended by the new word's first byte, if there is room, and the code then stands for the word it was read as |
| LzwGreedy.ThreeEqualBytes | server/common/server_util.c:550-589 | the text aaa makes the codes 97, 257 and 256 |
| Compressor.FindChild | server/common/server_util.c:557-565 | walking the child and brother links finds the latest entry that extends the pattern by the byte, and nothing only if there is none |
| Compressor.AddChild | server/common/server_util.c:574-583 | linking a new node in place keeps the tree a representation of the dictionary with the entry registered; a full table stays as it is |
| Compressor.LinkRepresents | server/common/server_util.c:574-583 | pushing a node on the front of its parent's child list represents the dictionary with one more entry |
| Compressor.PendingFound | server/common/server_util.c:551-568 | the end-of-text mark never matches an entry, so the entry that is registered for it is never used |
| Compressor.PendingEmit | server/common/server_util.c:566-585 | after an emission what was emitted and what the rest of the text will emit are together still the whole code sequence |
| Compressor.EmittedResult | server/common/server_util.c:482-516 | a failed write sticks: the last result is -1 exactly when the codes do not fit, and otherwise ceil(9n/8) with all n codes in the buffer |
| Compressor.Compress | server/common/server_util.c:527-590 | -1 exactly for an empty text or a buffer that is not longer than ceil(9n/8); otherwise that length, with the n codes packed in the buffer and nothing written outside it |
| Decompressor.Unwind | server/common/server_util.c:624-640 | pushes the word of a code on the stack, last byte first; stops before the stack or a node index overflows, whatever the nodes hold |
| Decompressor.Flush | server/common/server_util.c:643-648 | pops the stack into the text, or -1 when the text is full; nothing past the limit is written |
| Decompressor.Turn | server/common/server_util.c:615-656 | one turn appends exactly the word of the code and registers exactly what the specification registers, or fails exactly when the text is full; each turn makes progress on any input |
| Decompressor.ReadTurn | server/common/server_util.c:611-656 | stops at end of file exactly when the codes are used up, and fails only if the output does not fit |
| Decompressor.Decompress | server/common/server_util.c:592-660 | total on arbitrary code bytes, with a result from -1 to textlen and nothing written past textlen; on any legal code sequence the result is its output, or -1 exactly when that is too long |
| BitPacker.PutAppends | server/common/server_util.c:467-481 | storing a field of 1 to 8 bits appends its bits and keeps every bit at or above the new write position zero |
| BitPacker.GetReads | server/common/server_util.c:426-442 | the masked shift of two neighbouring bytes is the field of the bit stream at that place |
| BitPacker.PackerRoundTrip | server/common/server_util.c:426-517 | the value-level step: from any bytes that hold the packed bits of a sequence of values, reading fields of the same widths gives the values |
| BitStreams.BitStream.ReadBody | server/common/server_util.c:426-442 | reads a field of up to 8 bits and moves past it; at the end of the buffer, or for other widths, it returns 0 |
| BitStreams.BitStream.Read | server/common/server_util.c:443-466 | reads a field of any width, low byte first; of the widths 17 to 24 it takes only 16 bits, of 25 to 32 only 24, because the last piece is asked for with a width that is refused; at the end of the buffer it takes exactly the pieces that start inside |
| BitStreams.BitStream.WriteBody | server/common/server_util.c:467-481 | appends up to 8 bits, or fails without changing anything exactly when the byte behind the field is not in the buffer |
| BitStreams.BitStream.Write | server/common/server_util.c:482-517 | appends a field of up to 32 bits and returns the number of bytes in use, or -1 exactly for other widths and when the last byte of the field has no successor in the buffer |
| WideFields.WideRunsKeepExactly | server/common/server_util.c:443-517 | from a buffer that holds any run of fields of 1 to 32 bits, reading the same widths gives the values back if and only if every value up to the first field of more than 16 bits fits the bits that are read of it, and every value behind that field is 0 |
| WideFields.LastWideComesBack | server/common/server_util.c:443-517 | in particular a run whose only wide field is its last comes back if and only if that value needs no more than the 16 or 24 bits that are read |
| WideFields.PackableComesBack | server/common/server_util.c:443-517 | and a run without a wide field always |
| WideFields.SecondWideFieldShifts | server/common/server_util.c:443-517 | for one, 1 written twice in 17 bits comes back as 1 and 2 |
| BitStreams.WriteItems | server/common/server_util.c:482-517 | writing a sequence of fields of 1 to 32 bits succeeds if and only if every field fits the buffer, and then the buffer holds their packed bits and nothing else |
| BitStreams.ReadItems | server/common/server_util.c:443-466 | reading the same widths in turn gives the fields of the bytes from the read position on, each from where the one before it stopped |
| BitStreams.WriteThenRead | server/common/server_util.c:408-517 | open, write, reopen, read: the writes succeed exactly when every field fits; then every value comes back exactly for the runs just described, among them all runs of fields of at most 16 bits; nothing outside the buffer is touched |
| LiteralMasks.LiteralMasksKeepExactly | server/common/server_util.c:369-517 | with the mask tables read as they are spelled, a run of writes of 1 to 16 bits into a cleared buffer comes back value by value if and only if, for every field, its set bits lie at multiples of four in the buffer and no stray bit of what follows is set: none at 8i + 4 when the field, or the first byte of one wider than eight bits, ends at 8i + 2, 8i + 3 or 8i + 4 |
| LiteralMasks.FieldComesBackExactly | server/common/server_util.c:426-450 | the same condition for one field, in any buffer that holds the bits at multiples of four of what was written, whatever stands before and behind it |
| LiteralMasks.PutPiecesKeepGrid | server/common/server_util.c:467-517 | under the tables as spelled any run of writes leaves in the buffer exactly those of its bits that lie at multiples of four |
| LiteralMasks.StrayPlace | server/common/server_util.c:369-406 | where the bit lies that a read takes by mistake: bit 4 of the byte in which the field ends, exactly when it ends before bit 2, 3 or 4 |
| LiteralMasks.LiteralMasksLoseBits | server/common/server_util.c:369-517 | for one, 3 written in eight bits at the start of a buffer is not read back |
| LiteralMasks.NeighbourSpoils | server/common/server_util.c:369-517 | for another, 1 in two bits and then 4 in eight are not, although every bit lies at a multiple of four |
| LiteralCodec.CodesKeptExactly | server/common/server_util.c:369-590 | for a compressed message under the tables as spelled: its codes are read back if and only if they are a run that survives, and then they decode to the message |
| LiteralCodec.FirstCodeAsSpelled | server/common/server_util.c:369-466 | whatever the message, what is read as its first code is its first byte with all bits but two masked off, the bitwise and with 17 |
| LiteralCodec.FirstByteIsLost | server/common/server_util.c:369-660 | so for every compressed message whose first byte is not 0, 1, 16 or 17 whatever legal codes begin with the one read spell another first byte |
| Scrambler.RoundTrip | server/common/server_util.c:321-368 | for every key and every non-empty string, unscrambling undoes scrambling, the inserted sum byte and the wrap-around included |
| Scrambler.MangleInPlace | server/common/server_util.c:321-332 | the first pass sums the original bytes and complements exactly the bytes at places i for which key rem 7 is i rem 5 or key rem 2 is i rem 2 |
| Scrambler.JEncode | server/common/server_util.c:321-346 | if it fits with its sum byte, the string under the position law of ScrambledLaw, otherwise only as much of it as fits, unchanged |
| Scrambler.JDecode | server/common/server_util.c:347-368 | one byte less, related to the input by the same position law whatever the input; nothing beyond it is changed |
| Scrambler.ScrambledLaw | server/common/server_util.c:321-346 | position by position: the sum of the bytes stands at the magnitude of key rem n; in front of it byte i is shifted by the sum times i squared rem 3, behind it the bytes move up one place and are shifted by the sum times the square of the new place rem 7; complemented first are the places that the key's remainders by 7 and by 2 pick |
| Scrambler.UnscrambledLaw | server/common/server_util.c:347-368 | of any bytes at all the decoded ones stand in that relation to them |
| Scrambler.DefaultKeyExample | server/common/server_util.c:5-5 | under the default key 1000 the block 4, 65, 66, 0 becomes 135, 130, 93, 203, 14 |
| Armour.GroupInverse | server/common/server_util.c:227-320 | a group of one, two or three bytes is regained from its two, three or four characters |
| Armour.RoundTrip | server/common/server_util.c:205-320 | for every byte string, over all three tail lengths, the armour is undone, and consists of the 64 printable characters only |
| Armour.Encode64 | server/common/server_util.c:227-271 | writes exactly the armour, ceil(4n/3) characters, and its terminator |
| Armour.Decode64 | server/common/server_util.c:272-320 | writes exactly the bytes that the characters stand for, and returns their number |
| ArmourDigits.CharsetIsAlphabet | server/common/server_util.c:205-210 | the 64 characters are upper case, lower case, digits, plus and minus, in this order |
| ArmourDigits.ReverseIsPlace | server/common/server_util.c:211-226 | a character reads as its place among them, any other as 0 |
| ArmourDigits.ArmouredDigit | server/common/server_util.c:227-271 | every character is the base-64 digit, most significant first, of the number that its group of three bytes makes, zeros standing for bytes behind the end |
| ArmourDigits.UnarmouredByte | server/common/server_util.c:272-320 | every decoded byte is the base-256 digit of the number that its group of four characters makes, for characters in and out of the alphabet |
| Codec.FlagSelects | server/common/server_util.c:138-165 | the parity of the flag byte, as truncated to a char, says whether the string was stored or compressed |
| Codec.LineRoundTrip | server/common/server_util.c:166-200 | the two outer layers together give the block back |
| Codec.BuildBlock | server/common/server_util.c:138-165 | the block: flag byte and stored string, or flag byte and code; the exit and the empty line happen exactly when the string or its code does not fit |
| Codec.BlockShape | server/common/server_util.c:138-165 | up to 98 bytes are stored as they are, with their terminator, behind the even one of the next two lengths, 99 and more compressed behind the odd one, each taken modulo 256 |
| Codec.DefaultKeyLine | server/common/server_util.c:138-172 | under the default key the string AB becomes the line h4Jdyw4 |
| Codec.StrippedEnds | server/common/server_util.c:174-190 | carriage return and line feed, or either alone, are cut off a line before it is decoded, and nothing else is |
| Codec.EncodeString | server/common/server_util.c:138-172 | the line of the string, of known length, or a lone newline exactly when the code overflows; exit exactly for a stored string that does not fit |
| Codec.DecodeString | server/common/server_util.c:174-203 | if the line, with or without its line ending, is one that some NUL-free string encodes to and that string fits work_buf_size, then out holds that string, and the result is its length, with the terminator for a stored one; of any line at all whose block has an even flag byte the rest of the block is copied out |
| CodecRoundTrip.BlockDeterminesMessage | server/common/server_util.c:138-203 | two strings never make the same block |
| CodecRoundTrip.LineDeterminesMessage | server/common/server_util.c:138-203 | two strings never encode to the same line, although the spare bits of the last code byte are free |
| CodecRoundTrip.EveryMessageHasALine | server/common/server_util.c:138-172 | every string, for every key, has a line of the stated length, so what is said of lines is said of all messages |
| LineBuffer.TcpBuffer.Append | server/common/tcp_buffer.c:5-13 | appends exactly the given bytes, or returns -1 and changes nothing when they do not fit |
| LineBuffer.TcpBuffer.Consume | server/common/tcp_buffer.c:15-21 | drops exactly the first bytes, or returns -1 and changes nothing |
| LineBuffer.TcpBuffer.ReadLine | server/common/tcp_buffer.c:23-42 | by index: the bytes before the first newline, without one carriage return in front of it, or with the newline if that is kept, and the line leaves the buffer; too long a line gives -1 and leaves buffer and output unchanged; an empty line gives 0 but is consumed |
| LineBuffer.ShownText | server/common/tcp_buffer.c:30-33 | of a text and its line end, with or without carriage return, the text is shown, or the whole line if endings are kept |
| LineBuffer.ReadsText | server/common/tcp_buffer.c:23-42 | a buffer that begins with a text without newlines and either line end gives that text if it is shorter than the capacity, and then holds what followed |
| LineStream.PlaySplitsStream | server/common/tcp_buffer.c:5-42 | over any run of arrivals and reads the buffer stays within its capacity, accepted bytes are consumed lines followed by buffered bytes, and consumed lines followed by buffered lines are the lines of the whole stream |
| LineStream.ChunkingDoesNotMatter | server/common/tcp_buffer.c:5-42 | two drained runs that accepted the same bytes agree, however the bytes were cut |
| LineStream.ReadsDrain | server/common/tcp_buffer.c:23-42 | enough reads with room for the longest line take out every complete line, in order, and leave the unfinished one |
| LineStream.PlayOn | server/common/tcp_buffer.c:5-42 | the buffer object, driven by any run of arrivals and reads, holds what the specification's run leaves buffered and has given out its lines, each as it is shown |
| Delivery.Fits | server/common/server_util.c:138-172 | a string that the receiver's buffer admits fits every work area of the sender |
| Delivery.Send | server/common/server_util.c:79-124 | hands over the encoded message and a newline |
| Delivery.SentLine | server/common/server_util.c:79-124 | a sent line contains no newline but the one at its end, and strips to the encoding both as read with and without its ending |
| Delivery.Delivered | server/common/server_util.c:79-124 | end to end: however the stream of sent messages is cut and read, the lines taken out are encodings of the first messages in order, and of all of them once everything has arrived and been read |
| Delivery.DeliveredDecodes | server/common/server_util.c:79-203 | and each line so taken out is one that the receiver decodes to its message, if that fits the work areas |
| Delivery.EncodeThenDecode | server/common/server_util.c:138-203 | EncodeString and then DecodeString: every string that the work areas admit comes back, whatever the key |
| Delivery.Receive | server/common/server_util.c:174-203 | reading the first line off the buffer and decoding it gives the message that was sent, and takes exactly its line out of the buffer |
| Delivery.ReceiveAll | server/common/server_util.c:174-203 | from a buffer that begins with the lines of n messages the n messages are read and decoded, in order, and what followed them is left |
| Tokenizer.SplitString | server/common/server_util.c:31-68 | 1 + the number of spaces for a non-empty message within the capacity, 0 for an empty one, otherwise -1 with the message unchanged; afterwards every token shows its field of the message up to a line end |
| Tokenizer.TokensAreFields | server/common/server_util.c:43-65 | the token pointers, after the separators have been overwritten, show the fields between spaces, empty ones kept, each up to its first line end |
| Tokenizer.TokensJoin | server/common/server_util.c:43-65 | without line ends the tokens joined by single spaces are the message |
| Tokenizer.TokensOfLine | server/common/server_util.c:43-65 | and with one trailing line end they are the message before it |
| Tokenizer.FieldsUnique | server/common/server_util.c:43-65 | the fields are the only spaceless pieces that join to the message |
| HeroList.TargetInRange | server/common/saac_server_recv.c:313-345 | a submission would be stored in slot -1 exactly if it is a new player above 140 and no slot is below 140; floors up to 140 never are |
| HeroList.OutOfBoundsHappens | server/common/saac_server_recv.c:313-345 | a list of players at 140 and a newcomer at 141 is such a case |
| HeroList.TargetIsTaken | server/common/saac_server_recv.c:313-345 | the scan picks slot i if and only if the submission is no query, beats the floor there, and i is the last slot of its player, or for an unlisted player the first of the lowest slots, lower than 140 |
| HeroList.Board.UpdataStele | server/common/saac_server_recv.c:311-346 | slot by slot: a slot that the submission takes, as in TargetIsTaken, holds the whole submission, title, level and all, every other what it held; the reply names whom it replaced, and is the whole list exactly for the query |
| HeroList.UpdateKeepsTop | server/common/saac_server_recv.c:313-345 | every submission keeps the list the top of the history |
| HeroList.FloorsNeverDrop | server/common/saac_server_recv.c:320-344 | no slot's floor ever goes down, so neither does the minimum |
| HeroList.LowFloorsPlayable | server/common/saac_server_recv.c:313-345 | no run of named players with floors up to 140 ever leaves the list |
| HeroList.TopHundred | server/common/saac_server_recv.c:311-346 | from a duplicate-free list, after any run of named submissions none of which is out of bounds: nobody is listed twice, whoever is listed has their best floor, and nobody left out ever did better than anyone listed; and a floor that every slot had reached every slot still has reached; every row is a whole row of the start or a whole submission |
| HeroList.RowsAreWhole | server/common/saac_server_recv.c:325-344 | no row ever mixes one submission with another |
| Connections.FdFrom | server/gmsv/net/net.c:1830-1841 | -1 exactly when no connection in use has the number, otherwise one that has it |
| GameServers.GameServer.GetfdFromFdid | server/gmsv/net/net.c:1830-1841 | the scan finds the first connection in use with the number |
| GameServers.GameServer.InitConnectOne | server/gmsv/net/net.c:769-891 | the slot becomes a fresh connection with a new number, and no other slot changes; in the protocol, the step Open |
| GameServers.GameServer.EndOne | server/gmsv/net/net.c:893-907 | the slot goes out of use and keeps its other fields, no other slot changes, and the protocol takes the step Close; or nothing happens, exactly on two values of errno |
| GameServers.GameServer.ClientLogin | server/common/gmsv_server_recv.c:113-230 | the early returns, the refusals and the request to the account server |
| GameServers.GameServer.CharList | server/common/gmsv_server_recv.c:505-574 | only an authenticated idle client is served; the request carries its own key and password |
| GameServers.GameServer.CharLogin | server/common/gmsv_server_recv.c:298-316 | only an authenticated idle client with a character name is served |
| GameServers.GameServer.CharDelete | server/common/gmsv_server_recv.c:478-503 | only an authenticated idle client is served |
| GameServers.GameServer.Dispatch | server/common/gmsv_server_send.c:28-31 | nothing gets through to the four handlers while the account server is deciding; table and messages then are those after the protocol's step FromClient |
| GameServers.GameServer.ACCharLoginRecv | server/common/saac_client_recv.c:1212-1234 | a verdict counts only for the connection that has its number and waits for it |
| GameServers.GameServer.ACCharListRecv | server/common/saac_client_recv.c:77-90 | resets the connection that has the number, whatever its state |
| GameServers.GameServer.ACCharLoadRecv | server/common/saac_client_recv.c:92-114 | into the game, back to character selection, or to unlocking when the character belongs to another key or cannot be made |
| GameServers.GameServer.ACCharDeleteRecv | server/common/saac_client_recv.c:169-190 | by state: two states reset, all others unchanged |
| GameServers.GameServer.ACLockRecv | server/common/saac_client_recv.c:192-233 | a refused unlock is asked again, the others lead back to character selection |
| GameServers.GameServer.Receive | server/common/saac_client_send.c:618-705 | a reply taken off the wire goes to the connection that has its number, and table and messages are those after the protocol's step Deliver |
| GameServers.GameServer.Authenticated | server/common/saac_client_recv.c:1212-1234 | of the table itself, after any run of the server's operations: a connection past authentication holds exactly the one account let in under its number, plays only its own character, and has at most the one message outstanding that it waits for |
| GameServers.GameServer.KeepsAccount | server/common/gmsv_server_recv.c:118-140 | between any two moments of such a run a connection that was let in and is still there is still let in, under the same account |
| AccountServer.ACCharLogin | server/common/saac_server_recv.c:1562-1634 | the flag that is sent, each value if and only if its reason: form, locked key, locked address or machine, unknown, wrong password, let in |
| AccountServer.SentLoginsAreWellFormed | server/common/gmsv_server_recv.c:124-137 | with an address and machine name of admissible length the account server never finds fault with the form of a login: what the game server lets through is narrower, and free of quotes and semicolons |
| LoginProtocol.StepKeeps | server/common/saac_client_recv.c:77-190 | every step of clients, game server, account server and network keeps the protocol invariant |
| LoginProtocol.Authentication | server/common/saac_client_recv.c:1212-1234 | after any run, a connection past authentication holds exactly the one account that was let in under its number |
| LoginProtocol.GrantHasCause | server/common/saac_server_recv.c:1562-1634 | nothing counts as let in unless the account server decided so in answer to a login of that number and account |
| LoginProtocol.PlaysOwnCharacter | server/gmsv/char/char.c:1043-1049 | after any run, whoever is in the game plays a character stored under the key that was let in |
| LoginProtocol.OneOutstanding | server/common/gmsv_server_recv.c:498-573 | after any run at most one message carries any one number, and it is the one its connection waits for |
| LoginProtocol.ResetsAreAwaited | server/common/saac_client_recv.c:77-114 | the list and load replies, which reset a connection without looking at its state, find it waiting for just that reply |
| LoginProtocol.GoneForGood | server/gmsv/net/net.c:884 | a number whose connection is closed never comes into use again, so late replies reach nobody |
| LoginProtocol.AccountForGood | server/common/gmsv_server_recv.c:118-140 | from being let in until it is closed a connection keeps its account and stays authenticated, whatever is sent or arrives |
| ClientAnswers.VerdictsAreTrue | server/common/saac_client_recv.c:1212-1234 | after any run, a client is told ok if and only if its connection is authorised from then on and holds a grant of its own account, and no if and only if it has to log in again and nothing was granted |
| ClientAnswers.ListsAreTrue | server/common/saac_client_recv.c:77-90 | the result of a list is passed on as it came, to a connection that waits for it and is idle afterwards |
| ClientAnswers.LoadsAreTrue | server/common/saac_client_recv.c:92-114 | a connection enters the game exactly for a successful, non-empty reply with a character of its own key that can be made; its client is told success then and, besides, exactly for a successful reply without data |
| ClientAnswers.EmptyLoadIsToldAsSuccess | server/common/saac_client_recv.c:92-114 | that other case can arise for every load request under way: success is told and the connection is back at the character list |
| ClientAnswers.DeletesAreTrue | server/common/saac_client_recv.c:169-190 | the result of a deletion is passed on as it came |
| ClientAnswers.UnlocksGoOn | server/common/saac_client_recv.c:192-233 | a refused unlock is asked again, any other answer leads back to the character list |
| ClientAnswers.ServedRequests | server/common/gmsv_server_recv.c:113-503 | a login with a key of 1 to 15 and a password of 1 to 32 acceptable bytes on a fresh connection, and any other request of an idle one, is passed on in one message that says what the client asked, and the connection then waits for the answer to it |
| ClientAnswers.OtherRequests | server/common/gmsv_server_recv.c:113-574 | every other request changes nothing, and is answered with no exactly if the login is too long or the client is known and not idle |
| ClientAnswers.AsksForOwnAccount | server/common/gmsv_server_recv.c:298-574 | list, load and deletion are asked for under the account, or for deletion the key, that was let in under that number |
| ClientAnswers.StrangersAreIgnored | server/gmsv/net/net.c:769-891 | a connection just opened gets no answer and leaves no trace with anything but a login |
| ClientAnswers.NobodyWaitsInVain | server/common/saac_client_recv.c:77-233 | in any run in which no message is lost, every connection in a waiting state has its request or the reply to it under way |
| Utf8.ValidExactly | server/common/gmsv_server_recv.c:51-94 | the bytes are accepted if and only if they are the encoding, as in section 4 of RFC 3629, of scalar values above U+0020 other than U+007F |
| Utf8.DecodingIsUnique | server/common/gmsv_server_recv.c:51-94 | no two sequences of such scalar values have the same encoding |
| Utf8.IsValidCharacterName | server/common/gmsv_server_recv.c:51-94 | the pointer loop decides that property |
| Utf8.CheckStringErr | server/common/gmsv_server_recv.c:2483-2502 | refuses exactly the invalid strings and those with a quote or a semicolon |
| Utf8.PlainExactly | server/common/gmsv_server_recv.c:2492-2500 | the byte scan for quote and semicolon is exact: neither byte is ever part of a longer character |
| Utf8.CountCharacters | server/common/gmsv_server_recv.c:2075-2099 | the loop refuses malformed sequences and more than 16 characters, as it counts them |
| Utf8.CountsCharacters | server/common/gmsv_server_recv.c:2075-2099 | on encodings the looser loop never sees a malformed sequence, and counts the characters |
| Utf8.PetNamesExactly | server/common/gmsv_server_recv.c:2075-2105 | of the strings that checkStringErr accepts, the loop refuses exactly those of more than 16 characters |
| Utf8.CountsExactly | server/common/gmsv_server_recv.c:2075-2099 | whatever the bytes, the counting loop accepts exactly the concatenations of at most 16 sequences of a lead byte and as many bytes from 0x80 to 0xBF as it asks for |
| CrcTables.CrcTab16Entries | remove_code/util.c:706-735 | each of the 256 entries of crctab16 is its index, eight places up, reduced modulo x^16 + x^12 + x^5 + 1 |
| CrcTables.BitTableEntries | remove_code/util.c:683-705 | each of the 256 entries of BitTable is its index with the bits in the opposite order |
| Crc.ReducedIsShift | remove_code/util.c:706-735 | the table entry and its index times x^16 differ by a multiple of the modulus |
| Crc.MirroredIsPolynomial | remove_code/util.c:683-705 | the mirrored byte is the polynomial of the byte's bits, lowest first |
| Crc.LookupIsShift | remove_code/util.c:741-743 | one look-up and one shift multiply the register by x^8 modulo the generator |
| Crc.CheckCRC | remove_code/util.c:736-746 | the table-driven loop returns the remainder of the message polynomial, each byte mirrored and nothing appended, by polynomial division |
| Crc.RemainderUnique | remove_code/util.c:736-746 | only one 16-bit value is that remainder |
| Crc.CrcIsLinear | remove_code/util.c:736-746 | the check sum of the exclusive or of two messages of one length is the exclusive or of their check sums |
| Polynomials.RemainderIsUnique | remove_code/util.c:736-746 | polynomial division by a modulus of degree n leaves one remainder of degree below n |
| FieldSelector.GetStringFromIndexWithDelim | remove_code/util.c:359-382 | true exactly when there are at least index fields, and then the index-th of them; otherwise false with the last one |
| FieldSelector.SplitCuts | remove_code/util.c:364-379 | the fields joined by the delimiter are the source, and every cut is at the leftmost occurrence |
| FieldSelector.SplitIsUnique | remove_code/util.c:364-379 | they are the only such list |

## Left out

- Crc.CheckCRC: the index into crctab16 is the number whose bits the register's top byte holds, where C converts the byte itself.
- LiteralCodec.FirstByteIsLost: says nothing of code sequences that are no longer legal when they are read; what the decompressor writes for those is not specified.
- Decompressor.Decompress: requires one readable byte behind the code, which the bit reader touches; the work areas have it.
- Codec.EncodeString: `exit(1)` is a result of its own, `Exit`; the work areas are passed explicitly, since `ws` is not a parameter in the source and the region between `SERVER_ENCRYPT` does not compile as it stands (`decode64` is also declared both static and not). `jencodecopy` and `jencode_copy` are one buffer.
- Codec.DecodeString: strings of fewer than two characters, for which the source looks in front of its argument; the store to `out[-1]` after a failed decompression is not modelled.
- Scrambler.JEncode: `i * i` in an unbounded integer; an overflow of the source's `int` is not modelled.
- Delivery.Send: only for lines that leave room for the newline and its terminator; the log before it and the socket behind it are left out.
- Tokenizer.SplitString: the decoding that comes first when `SERVER_ENCRYPT` is defined; it is Codec.DecodeString.
- HeroList.Board.UpdataStele: the columns of a row are strings in the source and numbers here where the source reads them with `atoi`; requires the slot to be one of the list's, which it is except exactly as HeroList.TargetInRange says; the sizes of the string columns and saving to a file are left out.
- GameServers.GameServer.InitConnectOne: the number is an unsigned 32-bit counter in the source; its wrap-around after 2^32 connections is not modelled.
- GameServers.GameServer.EndOne: saving the character of whoever was in the game; `errno` is a parameter.
- GameServers.GameServer.ClientLogin: the optional check under `_NO_FULLPLAYER_ATT`; machine name and address are taken as the client's, and only the machine name's check is kept.
- GameServers.GameServer.CharList: the optional check under `_MO_LOGIN_NO_KICK`; closing an older connection of the same account, which in the protocol is a step of its own (`Close`).
- GameServers.GameServer.CharDelete: the two database deletions and the broadcast that go out with the request; no reply to them touches a connection.
- GameServers.GameServer.ACCharLoadRecv: CHAR_login is one step; it succeeds if the character is stored under the connection's key and nothing else prevents it, and that is a parameter.
- GameServers.GameServer.ACLockRecv: the answers to a game master's lock commands, which are texts for a player.
- AccountServer.ACCharLogin: what the database answers is a parameter; recording who is online is left out.
- GameServers.GameServer.Receive: only the five replies of the login protocol, each taken as parsed, and only ones that the account server has sent.
- LoginProtocol.StepKeeps: creating and saving characters, logging out, shutting down and the states that belong to them; the account server's connection itself, which is taken to be up. Which reply a list, load, delete or unlock request gets is left open.
- FieldSelector.GetStringFromIndexWithDelim: truncation to the size of the buffer, as the two copying helpers are not part of this model; an empty delimiter.
- Utf8.CheckStringErr: a null pointer; strings are taken up to their terminator.
- LineBuffer.TcpBuffer.Append: null pointers.
- Locks, threads, sockets, select and epoll: each handler is one step.
- The Lua hooks, encryption of client messages, parsing of message fields, game rules, mail, families, and the client.
