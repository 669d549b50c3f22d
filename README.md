# Message feed on Solana: a Dafny model

This project models the core of a small Solana message feed. The feed is a
singly linked list of message accounts. Each account holds the key of the
next message, the author, the chain creator and the text. It has two sides:

- **The on-chain program** (`process_instruction`). It checks signatures,
  initialises a user account, writes a new message and links it from its
  predecessor. It also optionally marks a user as banned, propagates the
  chain creator, and checks the creator and the UTF-8 text.
- **The TypeScript client.**
  - It sizes and allocates accounts.
  - It builds the user-initialisation and posting transactions.
  - It decodes a message account.
  - It walks the chain of `nextMessage` pointers into a caller-owned array
    until it reaches the all-zero key.

The model follows the form of the code:

- **Program (`program.dfy`).** `Program.ProcessInstruction` is an imperative
  method. It works on `AccountInfo` objects whose data are `array<byte>`
  buffers, updated in place through the two fixed layouts.
  - A Rust panic is a precondition (`PanicFree`): a short buffer, a text
    buffer whose length differs from the input, or a buffer borrowed
    mutably twice.
  - Every error the handler returns is a `ProgramResult`.
- **Client (`message.dfy`, `user.dfy`, `web3.dfy`).**
  - `RefreshMessageFeed` and its loop `PushFeedFrom` are methods over a
    `MessageArray` object whose `elements` they extend. Both are proved
    against `FeedFrom`, the entries of the chain from the resume point.
  - The transaction builders are methods that add instructions to a
    `Transaction` object.
  - Decoding and `readMessage` are functions of the account bytes.
  - The network is a snapshot `Ledger`, a map from key to owner and data.
  - The walk is a generic chain over any successor function. The feed
    instantiates it with the pointers the client decodes and the zero key.
- **UTF-8 (`utf8.dfy`).** RFC 3629 encoding and decoding. This is what the
  client's `Buffer.from(text)` and `cstr` decoding do, and what the
  program's `from_utf8` check accepts. It comes with both round trips.
- **Agreement (`agreement.dfy`).** Ties the two sides together:
  - The client allocates exactly the sizes the program needs.
  - The client's decoding agrees with the program's layout.
  - Accepted text reads back.
  - A successful post extends the walked feed by exactly the new message.

Notes on the code's behaviour:

- **Decoding.** The client has no decode error. Decoding clamps short
  buffers, and an absent account reads as an all-zero record.
- **Posting.** Posting is not retried.
- **Text.** The stored text has no terminator. It runs to the end of the
  account, and the client reads it only up to the first zero byte, so a
  text holding U+0000 does not round-trip (`Agreement.PostedTextTruncatedAtNul`).
- **Banning.** The program never reads the `banned` flag and never returns
  `BannedUser`, so a banned user can still post. The ban sets byte 0 of
  whatever account is named as the user to ban. When that account is a
  message, this overwrites the first byte of its `next_message`
  (`Agreement.BanRewritesPointer`).
- **Empty text.** A post with empty text sends empty instruction data. The
  program takes that for a user initialisation (`Agreement.EmptyTextIsEmptyInstruction`).

## Model

| member | source | states |
|---|---|---|
| Program.FromFeedError | src/program-rust/src/lib.rs:26-30 | each program error becomes a custom error with code 0, 1 or 2 |
| Program.FeedErrorsDistinct | src/program-rust/src/lib.rs:17-30 | two program errors give the same custom error exactly when they are the same error |
| Program.UserLayout | src/program-rust/src/lib.rs:39-51 | the first 33 bytes of a user buffer are the `banned` byte followed by the 32-byte creator |
| Program.MessageLayout | src/program-rust/src/lib.rs:53-71 | the message view's four fields, laid end to end, are the whole buffer |
| Program.MessageLayoutOfBytes | src/program-rust/src/lib.rs:53-71 | the buffer built from a view is 96 bytes plus the text long, and its view is that view |
| Program.PanicFree | src/program-rust/src/lib.rs:91-160 | the handler does not panic. Every buffer it borrows is long enough for its layout: `split_at_mut` and `array_mut_ref!` at lib.rs:45-48 and 61-67 need 33 and 96 bytes. The message buffer is exactly 96 bytes plus the input when the text is copied (`clone_from_slice` at lib.rs:125). No buffer is borrowed mutably twice (`borrow_mut` at lib.rs:92, 98, 134 and 151). Each condition applies only on the paths that reach that borrow |
| Program.FinalChecks | src/program-rust/src/lib.rs:169-180 | Ok exactly when the user's creator equals the message's creator and the input is UTF-8; `CreatorMismatch` first, then `InvalidInstructionData` |
| Program.CopyInto | src/program-rust/src/lib.rs:125 | `clone_from_slice` replaces exactly the bytes at the offset and keeps the rest |
| Program.SetUserCreator | src/program-rust/src/lib.rs:119-121 | only the user's creator changes, to the given key; bytes past 33 are kept |
| Program.SetText | src/program-rust/src/lib.rs:125 | only the text field changes, to the input; the buffer must be exactly 96 bytes plus the input long |
| Program.SetFrom | src/program-rust/src/lib.rs:129-131 | only the `from` field changes, to the given key |
| Program.SetNextMessage | src/program-rust/src/lib.rs:144-146 | only `next_message` changes, to the given key |
| Program.SetMessageCreator | src/program-rust/src/lib.rs:158-166 | only the message's `creator` changes, to the given key |
| Program.ProcessInstruction | src/program-rust/src/lib.rs:78-186 | fewer than two accounts: `NotEnoughAccountKeys`, nothing written. A missing signature: `MissingRequiredSignature`, nothing written. Empty input: Ok, and only the user's creator changes, to the message key. Otherwise the text is the input, `from` is the user key, and the user account is untouched. With no predecessor the new message is its own chain creator. A predecessor that already has a successor gives `NextMessageExists`, with the predecessor and every other account except the new message left as they were. A predecessor that is a tail gets the new key as its `next_message` and keeps its other fields. The new message inherits the predecessor's creator, and a fourth account has only byte 0 set to 1. The result is then `FinalChecks` of the two creators and the input. `BannedUser` is never returned |
| Utf8.Encode | src/client/user.ts:13-14 | the byte length of a text is between its length and four times its length |
| Utf8.DecodeSucceedsIffValid | src/program-rust/src/lib.rs:177-180 | decoding succeeds exactly on the byte strings the UTF-8 check accepts |
| Utf8.EncodeIsValid | src/client/message.ts:175 | the bytes the client sends for any text pass the program's UTF-8 check |
| Utf8.DecodeEncode | src/client/message.ts:175 | decoding the encoding of any text gives that text back |
| Utf8.EncodeDecode | src/program-rust/src/lib.rs:177-181 | any byte string that decodes is the encoding of what it decodes to |
| Utf8.Valid | src/program-rust/src/lib.rs:177 | `from_utf8` accepts exactly the concatenations of RFC 3629 well-formed sequences; `Utf8.DecodeSucceedsIffValid` states that this is where decoding succeeds |
| Utf8.ZeroByteIffNul | src/client/message.ts:47 | an encoding holds a zero byte exactly when the text holds U+0000 |
| Utf8.PrefixBeforeZeroIsValid | src/client/message.ts:47 | cutting valid UTF-8 at its first zero byte leaves valid UTF-8 |
| Utf8.EncodeAppend | src/client/message.ts:175 | the encoding of a concatenation is the concatenation of the encodings |
| Bytes.Zeros | src/client/message.ts:241 | `n` bytes, all zero (the zero key is 32 of them) |
| Bytes.IndexOfZero | src/client/message.ts:47 | the first zero byte at or after a position, or the end: no zero before it, a zero at it |
| User.MessageAccountSize | src/client/user.ts:12-15 | 96 plus the text's UTF-8 length, so between 96 plus its length and 96 plus four times its length |
| User.MessageAccountSizeIncreasing | src/client/user.ts:12-15 | a message account is at least 96 bytes and grows strictly with the byte length of its text |
| User.CreateUserAccount | src/client/user.ts:49-83 | appends exactly two instructions and keeps the earlier ones: an allocation of a 33-byte account for the new user, then an initialisation with no data whose keys are the user as signer and the message account as signer when one is given |
| User.CreateUser | src/client/user.ts:17-43 | a new transaction with just those two instructions, signed by the payer, the user and the message account |
| Web3.Transaction.Add | src/client/message.ts:217-221 | `transaction.add` appends the instruction after the earlier ones |
| Message.Blob | src/client/message.ts:39-41 | a blob is at most 32 bytes, and exactly the bytes at the offset when the buffer is long enough |
| Message.PublicKeyOf | src/client/message.ts:109-110 | a key read from a short blob is that blob after leading zero bytes |
| Message.CString | src/client/message.ts:47 | the text holds no zero byte, and is the bytes from the offset up to the first zero byte or the end |
| Message.DecodeLayout | src/client/message.ts:43-48 | `messageAccountDataLayout.decode`: the decoded text never holds a zero byte and is empty on a buffer shorter than 96 bytes; `Message.DecodeLayoutFields` gives the fields of a full buffer |
| Message.DecodeLayoutFields | src/client/message.ts:43-48 | on 96 bytes or more, the fields are bytes 0..32, 32..64 and 64..96, then the text up to the first zero byte |
| Message.DecodeLayoutOfRecord | src/client/message.ts:43-48 | decoding three keys followed by a text with no zero byte gives back those keys and that text |
| Message.ReadMessageCases | src/client/message.ts:98-122 | an absent account reads as all-zero keys and empty text; a present one as its own address, its owner and its decoded pointer, author and text |
| Message.NextOf | src/client/message.ts:256-264 | the pointer followed out of an address is the decoded `nextMessage`, or the zero key for an absent account |
| Message.Chain | src/client/message.ts:242-265 | the addresses a walk visits are no more than its bound, and none exactly when the start is the zero key |
| Message.ChainIsWalk | src/client/message.ts:252-264 | the chain starts at the start, each address is the pointer of the one before, none is the zero key, and the last points to the zero key |
| Message.WalkIsChain | src/client/message.ts:252-264 | any sequence with those properties is the chain, and its length bounds the walk |
| Message.ChainBoundIrrelevant | src/client/message.ts:242-265 | any bound within which the walk ends gives the same chain |
| Message.ReachesEndMonotone | src/client/message.ts:242-265 | a walk that ends within a bound ends within any larger one |
| Message.ChainSuffix | src/client/message.ts:264 | from any visited address on, the chain is the chain of that address |
| Message.ChainHasNoRepeats | src/client/message.ts:242-265 | a walk that ends visits no address twice |
| Message.AppendExtendsChain | src/client/message.ts:252-264 | if the pointers change only at the tail, which now leads to a new address that leads to the end, the chain gains exactly that address |
| Message.Entry | src/client/message.ts:256-262 | the pushed entry has the visited address as key, and the record's author, the author's name and the record's text |
| Message.Entries | src/client/message.ts:256-264 | one entry per address, in order |
| Message.ResumePoint | src/client/message.ts:243-250 | a given start is used as is; with none, an empty array gives no walk and otherwise the walk resumes at the last entry's `nextMessage` |
| Message.PushFeedFrom | src/client/message.ts:252-265 | the array becomes its old contents followed by the entries of the chain from the start, and the callback runs once per entry pushed |
| Message.RefreshMessageFeed | src/client/message.ts:235-266 | with no resume point nothing changes and no callback runs. Otherwise the old contents stay a prefix, followed by the feed's entries from the resume point in chain order, with one callback per entry |
| Message.RefreshIsIdempotent | src/client/message.ts:243-254 | after the whole feed has been collected, a refresh with no start resumes at the zero key, so it adds nothing |
| Message.PostMessageWithProgramId | src/client/message.ts:163-229 | the transaction first allocates the message account with `MessageAccountSize(text)` bytes. With no user given it then creates one and initialises it with the message account. It ends with an instruction to the program carrying the text's UTF-8 bytes, whose keys are the user and message as signers, the previous message as writable if given, and the user to ban only when a previous message is given. The signers are payer, user and message account |
| Message.PostMessage | src/client/message.ts:141-161 | the same two-instruction post after the previous message, addressed to the program that owns the previous message (the zero key when it is absent) |
| Message.CreateMessageFeed | src/client/message.ts:54-93 | the first post: an allocation sized for the first text, a new user and its initialisation, and a post with no predecessor |
| Agreement.AccountSizesMatchLayouts | src/client/user.ts:11-15 | the user account the client allocates is the 33 bytes the program views, and a message account is 96 bytes plus exactly the instruction data, as `clone_from_slice` demands |
| Agreement.EmptyTextIsEmptyInstruction | src/program-rust/src/lib.rs:117-121 | the instruction data are empty exactly when the text is empty, so an empty post reaches the user-initialisation branch |
| Agreement.ClientSeesProgramLayout | src/client/message.ts:43-48 | on any message buffer the client decodes the program's three keys, and the program's text cut at its first zero byte |
| Agreement.AcceptedTextDecodes | src/program-rust/src/lib.rs:177-180 | text the program accepts always decodes on the client |
| Agreement.PostedTextReadsBack | src/client/message.ts:43-48 | a record the program writes for a text without U+0000 decodes to its keys and to that text |
| Agreement.PostedTextTruncatedAtNul | src/client/message.ts:47 | a text with U+0000 reads back only up to its first U+0000 |
| Agreement.AfterPost | src/program-rust/src/lib.rs:133-160 | the ledger after a successful post has one new account, holding the new record. The predecessor keeps its owner and length, and its view is the old one with `next_message` set to the new key. The user to ban, if any, has only byte 0 set to 1. Every other account is unchanged |
| Agreement.RelinkKeepsEntry | src/program-rust/src/lib.rs:144-146 | rewriting `next_message` changes only that field of what the client decodes |
| Agreement.PostRelinksTail | src/program-rust/src/lib.rs:144-146 | after a post the tail points at the new message and shows the same entry, and the new message ends the feed |
| Agreement.PostKeepsOthers | src/program-rust/src/lib.rs:133-160 | every address other than the predecessor, the new message and the user to ban shows the same pointer and entry after a post |
| Agreement.FeedUntouchedBeforeTail | src/client/message.ts:252-264 | when the user to ban, if any, is off the feed, every address of the feed before its tail shows the same pointer and entry after a post |
| Agreement.ProgramWritesAfterPost | src/program-rust/src/lib.rs:144-154 | the buffers `Program.ProcessInstruction` leaves at the predecessor (its view relinked) and at the user to ban (byte 0 set) are those `AfterPost` holds |
| Agreement.BanRewritesPointer | src/program-rust/src/lib.rs:150-154 | a user to ban that is a message account afterwards shows its old pointer with the first byte set to 1, and the same author and text |
| Agreement.FeedEntriesKept | src/client/message.ts:256-262 | the entries of the feed as it was before the post read the same after it, when the user to ban is off the feed |
| Agreement.SuccessfulPostExtendsFeed | src/program-rust/src/lib.rs:133-160 | after a successful post after the tail of a feed, with the user to ban, if any, off the feed, the walk from the feed's start collects the old entries followed by the new message's entry |

## Left out

- Network I/O. `getAccountInfo` reads a fixed `Ledger` snapshot. `sendAndConfirmTransaction` is not modelled: the builders return the transaction and its signers.
- Lamports, rent exemption, the fee calculator and the payer's airdrop in `createMessageFeed`.
- The runtime's part:
  - signature verification;
  - account ownership;
  - `isWritable` enforcement;
  - the revert of all writes when the handler returns an error.
- `msg!` logging in the program, and `console.log` in the client.
- `new Account()` key generation. The new keys are parameters.
- `publicKeyToName` (a Haikunator wrapper). It is the opaque parameter `nameOf`.
- The entry points and the live monitor, none of which holds feed logic:
  - `hello_world.ts`: connection, deployment, bootstrap and the `onAccountChange` subscription loop;
  - `main.ts` and `monitor.ts`: readline I/O;
  - `store.ts`: file and JSON persistence.
- Concurrent writes to the ledger during a walk.
- Message.RefreshMessageFeed: requires a bound within which the walk reaches the zero key. The client keeps no visited set, so on a cyclic chain it does not end, and the model does not describe that run.
- Message.Entry: keeps the text as its UTF-8 bytes rather than the decoded JavaScript string. Invalid bytes, which JavaScript would turn into U+FFFD, are not modelled. Its decoding is `Utf8.Decode`.
- Utf8.Encode: takes Dafny strings, which hold only Unicode scalar values. A JavaScript string with a lone surrogate, which `Buffer.from` encodes as U+FFFD, is not modelled.
- Message.ReadMessage: carries no contract of its own. Its two cases are stated by `Message.ReadMessageCases`.
- Agreement.SuccessfulPostExtendsFeed: covers only posts whose user to ban, if any, is off the feed, because the ban would overwrite byte 0 of that message's `next_message` (`Agreement.BanRewritesPointer`). The user account itself is only read by a post.
- Agreement.FeedUntouchedBeforeTail: the same restriction, for the same reason.
- Program.ProcessInstruction: the revert of a failed transaction is not modelled. After `NextMessageExists`, `CreatorMismatch` or `InvalidInstructionData` the buffers keep the writes made before the error, which the runtime would discard.
