/** The on-chain message-feed program (`process_instruction`). Accounts are
    byte buffers that the handler views through fixed layouts and updates in
    place. Signature verification, account ownership, rent and the runtime's
    revert of a failed transaction are outside this module. */
module Program {
  import opened Bytes
  import Utf8

  /** The program's own error codes. */
  datatype MessageFeedError = BannedUser | NextMessageExists | CreatorMismatch

  /** The errors the handler can return. */
  datatype ProgramError =
    | NotEnoughAccountKeys       // `next_account_info` on an exhausted account list
    | MissingRequiredSignature
    | InvalidInstructionData
    | Custom(code: nat)          // `ProgramError::Custom(e as u32)`

  datatype ProgramResult = Ok | Err(error: ProgramError)

  /** The discriminant `e as u32` of a `MessageFeedError`. */
  function ErrorCode(e: MessageFeedError): nat
  {
    match e
    case BannedUser => 0
    case NextMessageExists => 1
    case CreatorMismatch => 2
  }

  /** `impl From<MessageFeedError> for ProgramError`: each program error gets
      its own custom code, so a client can tell them apart. */
  function FromFeedError(e: MessageFeedError): (pe: ProgramError)
    ensures pe.Custom? && pe.code < 3
  {
    Custom(ErrorCode(e))
  }

  lemma FeedErrorsDistinct(e: MessageFeedError, f: MessageFeedError)
    ensures FromFeedError(e) == FromFeedError(f) <==> e == f
  {
  }

  // ---------------------------------------------------------------------
  // Account layouts

  /** User account: byte 0 is `banned`, bytes 1..33 are `creator`. */
  const BANNED_OFFSET: nat := 0
  const USER_CREATOR_OFFSET: nat := 1
  const USER_DATA_SIZE: nat := USER_CREATOR_OFFSET + KEY_SIZE

  /** Message account: `next_message`, `from`, `creator`, then the text up to
      the end of the buffer. */
  const NEXT_MESSAGE_OFFSET: nat := 0
  const FROM_OFFSET: nat := NEXT_MESSAGE_OFFSET + KEY_SIZE
  const MESSAGE_CREATOR_OFFSET: nat := FROM_OFFSET + KEY_SIZE
  const TEXT_OFFSET: nat := MESSAGE_CREATOR_OFFSET + KEY_SIZE

  datatype UserAccountData = UserAccountData(banned: byte, creator: Key)

  datatype MessageAccountData = MessageAccountData(nextMessage: Key, from: Key, creator: Key, text: seq<byte>)

  /** `UserAccountData::new`: the view of a user buffer. `split_at_mut(1)` and
      `array_mut_ref!` panic on a buffer shorter than 33 bytes; bytes past 33
      belong to no field. */
  function UserLayout(d: seq<byte>): (u: UserAccountData)
    requires |d| >= USER_DATA_SIZE
    ensures d[..USER_DATA_SIZE] == [u.banned] + u.creator
  {
    UserAccountData(d[BANNED_OFFSET], d[USER_CREATOR_OFFSET..USER_DATA_SIZE])
  }

  /** `MessageAccountData::new`: the view of a message buffer. The three
      `split_at_mut` calls panic on a buffer shorter than 96 bytes. */
  function MessageLayout(d: seq<byte>): (m: MessageAccountData)
    requires |d| >= TEXT_OFFSET
    ensures MessageBytes(m) == d
  {
    MessageAccountData(d[..FROM_OFFSET], d[FROM_OFFSET..MESSAGE_CREATOR_OFFSET],
                       d[MESSAGE_CREATOR_OFFSET..TEXT_OFFSET], d[TEXT_OFFSET..])
  }

  /** The buffer whose view is `m`. */
  function MessageBytes(m: MessageAccountData): seq<byte>
  {
    m.nextMessage + m.from + m.creator + m.text
  }

  /** The view and the buffer determine each other. */
  lemma MessageLayoutOfBytes(m: MessageAccountData)
    ensures |MessageBytes(m)| == TEXT_OFFSET + |m.text|
    ensures MessageLayout(MessageBytes(m)) == m
  {
    var d := MessageBytes(m);
    assert d[..FROM_OFFSET] == m.nextMessage;
    assert d[FROM_OFFSET..MESSAGE_CREATOR_OFFSET] == m.from;
    assert d[MESSAGE_CREATOR_OFFSET..TEXT_OFFSET] == m.creator;
    assert d[TEXT_OFFSET..] == m.text;
  }

  // ---------------------------------------------------------------------
  // Accounts as the runtime hands them to the program

  /** An `AccountInfo`: its key, whether it signed the transaction, and its
      data buffer. Two entries naming the same account share one buffer. */
  class AccountInfo {
    const key: Key
    const isSigner: bool
    const data: array<byte>

    constructor (key: Key, isSigner: bool, data: array<byte>)
      ensures this.key == key && this.isSigner == isSigner && this.data == data
    {
      this.key := key;
      this.isSigner := isSigner;
      this.data := data;
    }
  }

  /** The buffers of the first four accounts: the only ones the handler looks
      at (user, new message, predecessor, user to ban). */
  function Buffers(accounts: seq<AccountInfo>): set<array<byte>>
  {
    set i | 0 <= i < |accounts| && i < 4 :: accounts[i].data
  }

  /** The conditions under which `process_instruction` does not panic:
      every buffer it borrows is long enough for the layout it is viewed
      through, the message buffer is exactly as long as header plus input
      when the text is copied into it (`clone_from_slice`), and no buffer is
      borrowed mutably twice (`RefCell::borrow_mut`). Each clause applies only
      when the handler reaches the borrow. */
  ghost predicate PanicFree(accounts: seq<AccountInfo>, input: seq<byte>)
    reads Buffers(accounts)
  {
    var n := |accounts|;
    && (n >= 1 ==> accounts[0].data.Length >= USER_DATA_SIZE)
    && (n >= 2 ==> accounts[1].data.Length >= TEXT_OFFSET && accounts[1].data != accounts[0].data)
    && (n >= 2 && accounts[0].isSigner && accounts[1].isSigner && input != [] ==>
          && accounts[1].data.Length == TEXT_OFFSET + |input|
          && (n >= 3 ==>
                && accounts[2].data.Length >= TEXT_OFFSET
                && accounts[2].data != accounts[0].data && accounts[2].data != accounts[1].data
                && (n >= 4 && accounts[2].data[..FROM_OFFSET] == ZERO_KEY ==>
                      && accounts[3].data.Length >= USER_DATA_SIZE
                      && accounts[3].data != accounts[0].data && accounts[3].data != accounts[1].data
                      && accounts[3].data != accounts[2].data)))
  }

  /** Both the user account and the new message account signed. */
  predicate Signed(accounts: seq<AccountInfo>)
    requires |accounts| >= 2
  {
    accounts[0].isSigner && accounts[1].isSigner
  }

  /** The last two checks of a post (lib.rs:169-180): the user's chain creator
      must be the new message's creator, and the text must be UTF-8. */
  function FinalChecks(userCreator: Key, messageCreator: Key, input: seq<byte>): (r: ProgramResult)
    ensures r == Ok <==> userCreator == messageCreator && Utf8.Valid(input)
    ensures userCreator != messageCreator ==> r == Err(FromFeedError(CreatorMismatch))
    ensures userCreator == messageCreator && !Utf8.Valid(input) ==> r == Err(InvalidInstructionData)
  {
    if userCreator != messageCreator then Err(FromFeedError(CreatorMismatch))
    else if !Utf8.Valid(input) then Err(InvalidInstructionData)
    else Ok
  }

  /** `clone_from_slice`: copy `src` into `dst` at `offset`. */
  method CopyInto(dst: array<byte>, offset: nat, src: seq<byte>)
    requires offset + |src| <= dst.Length
    modifies dst
    ensures dst[..] == old(dst[..offset]) + src + old(dst[offset + |src|..])
  {
    forall i | 0 <= i < |src| {
      dst[offset + i] := src[i];
    }
  }

  /** `user_data.creator.clone_from_slice(key)`. */
  method SetUserCreator(user: array<byte>, key: Key)
    requires user.Length >= USER_DATA_SIZE
    modifies user
    ensures UserLayout(user[..]) == old(UserLayout(user[..])).(creator := key)
    ensures user[USER_DATA_SIZE..] == old(user[USER_DATA_SIZE..])
  {
    CopyInto(user, USER_CREATOR_OFFSET, key);
    assert user[..USER_DATA_SIZE] == old(user[..USER_CREATOR_OFFSET]) + key;
  }

  /** `next_message.clone_from_slice(key)`. */
  method SetNextMessage(message: array<byte>, key: Key)
    requires message.Length >= TEXT_OFFSET
    modifies message
    ensures MessageLayout(message[..]) == old(MessageLayout(message[..])).(nextMessage := key)
  {
    CopyInto(message, NEXT_MESSAGE_OFFSET, key);
    assert message[..FROM_OFFSET] == key;
  }

  /** `from.clone_from_slice(key)`. */
  method SetFrom(message: array<byte>, key: Key)
    requires message.Length >= TEXT_OFFSET
    modifies message
    ensures MessageLayout(message[..]) == old(MessageLayout(message[..])).(from := key)
  {
    CopyInto(message, FROM_OFFSET, key);
    assert message[FROM_OFFSET..MESSAGE_CREATOR_OFFSET] == key;
  }

  /** `creator.clone_from_slice(key)` on a message buffer. */
  method SetMessageCreator(message: array<byte>, key: Key)
    requires message.Length >= TEXT_OFFSET
    modifies message
    ensures MessageLayout(message[..]) == old(MessageLayout(message[..])).(creator := key)
  {
    CopyInto(message, MESSAGE_CREATOR_OFFSET, key);
    assert message[MESSAGE_CREATOR_OFFSET..TEXT_OFFSET] == key;
  }

  /** `text.clone_from_slice(input)`, which panics unless the text field is
      exactly as long as the input. */
  method SetText(message: array<byte>, input: seq<byte>)
    requires message.Length == TEXT_OFFSET + |input|
    modifies message
    ensures MessageLayout(message[..]) == old(MessageLayout(message[..])).(text := input)
  {
    CopyInto(message, TEXT_OFFSET, input);
    assert message[TEXT_OFFSET..] == input;
  }

  /** `process_instruction`. Accounts: 0 the user, 1 the new message, then
      optionally 2 the predecessor message and 3 a user to ban. Empty input
      initialises the user's chain creator; other input posts it as the text
      of the new message. Writes made before an error are visible in the
      buffers here; reverting them is the runtime's business. */
  method ProcessInstruction(accounts: seq<AccountInfo>, input: seq<byte>) returns (r: ProgramResult)
    requires PanicFree(accounts, input)
    modifies Buffers(accounts)
    // `BannedUser` is declared but never returned, and nothing reads `banned`.
    ensures r != Err(FromFeedError(BannedUser))
    // The account list runs out before the user or the message account.
    ensures |accounts| < 2 ==> r == Err(NotEnoughAccountKeys) && unchanged(Buffers(accounts))
    // The signature checks come before every write.
    ensures |accounts| >= 2 && !Signed(accounts) ==>
      r == Err(MissingRequiredSignature) && unchanged(Buffers(accounts))
    // Empty input: the user's creator becomes the message account's key.
    ensures |accounts| >= 2 && Signed(accounts) && input == [] ==>
      && r == Ok
      && UserLayout(accounts[0].data[..]) == old(UserLayout(accounts[0].data[..])).(creator := accounts[1].key)
      && accounts[0].data[USER_DATA_SIZE..] == old(accounts[0].data[USER_DATA_SIZE..])
      && unchanged(Buffers(accounts) - {accounts[0].data})
    // Non-empty input: text and author are written, the user is only read.
    ensures |accounts| >= 2 && Signed(accounts) && input != [] ==>
      && MessageLayout(accounts[1].data[..]).text == input
      && MessageLayout(accounts[1].data[..]).from == accounts[0].key
      && MessageLayout(accounts[1].data[..]).nextMessage == old(MessageLayout(accounts[1].data[..]).nextMessage)
      && unchanged(accounts[0].data)
    // No predecessor: the new message is the root of its chain.
    ensures |accounts| == 2 && Signed(accounts) && input != [] ==>
      && MessageLayout(accounts[1].data[..]).creator == accounts[1].key
      && r == FinalChecks(old(UserLayout(accounts[0].data[..]).creator), accounts[1].key, input)
    // A predecessor that already has a successor is refused and left alone.
    ensures |accounts| >= 3 && Signed(accounts) && input != []
            && old(MessageLayout(accounts[2].data[..]).nextMessage) != ZERO_KEY ==>
      && r == Err(FromFeedError(NextMessageExists))
      && MessageLayout(accounts[1].data[..]).creator == old(MessageLayout(accounts[1].data[..]).creator)
      && unchanged(Buffers(accounts) - {accounts[1].data})
    // A predecessor that is a tail is linked to the new message, whose
    // creator is inherited; a fourth account gets its `banned` byte set.
    ensures |accounts| >= 3 && Signed(accounts) && input != []
            && old(MessageLayout(accounts[2].data[..]).nextMessage) == ZERO_KEY ==>
      && MessageLayout(accounts[2].data[..]) == old(MessageLayout(accounts[2].data[..])).(nextMessage := accounts[1].key)
      && MessageLayout(accounts[1].data[..]).creator == old(MessageLayout(accounts[2].data[..]).creator)
      && (|accounts| >= 4 ==> accounts[3].data[..] == old(accounts[3].data[..])[BANNED_OFFSET := 1])
      && unchanged(Buffers(accounts) - {accounts[1].data, accounts[2].data} - (if |accounts| >= 4 then {accounts[3].data} else {}))
      && r == FinalChecks(old(UserLayout(accounts[0].data[..]).creator),
                          old(MessageLayout(accounts[2].data[..]).creator), input)
  {
    if |accounts| < 2 {
      return Err(NotEnoughAccountKeys);
    }
    var user, message := accounts[0], accounts[1];
    if !user.isSigner {
      return Err(MissingRequiredSignature);
    }
    if !message.isSigner {
      return Err(MissingRequiredSignature);
    }
    if input == [] {
      SetUserCreator(user.data, message.key);
    } else {
      SetText(message.data, input);
      SetFrom(message.data, user.key);
      var messageCreator: Key;
      if |accounts| >= 3 {
        var existing := accounts[2];
        if MessageLayout(existing.data[..]).nextMessage != ZERO_KEY {
          return Err(FromFeedError(NextMessageExists));
        }
        SetNextMessage(existing.data, message.key);
        if |accounts| >= 4 {
          var banUser := accounts[3];
          banUser.data[BANNED_OFFSET] := 1;
        }
        messageCreator := MessageLayout(existing.data[..]).creator;
      } else {
        messageCreator := message.key;
      }
      SetMessageCreator(message.data, messageCreator);
      if UserLayout(user.data[..]).creator != MessageLayout(message.data[..]).creator {
        return Err(FromFeedError(CreatorMismatch));
      }
    }
    if !Utf8.Valid(input) {
      return Err(InvalidInstructionData);
    }
    return Ok;
  }
}
