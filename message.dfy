/** The client's view of the feed (src/client/message.ts): decoding a message
    account, reading one message, walking the chain of `nextMessage`
    pointers, and building the transactions that post a message. The network
    is a snapshot `Ledger` of the accounts that exist; fetches during one
    walk all see that snapshot. */
module Message {
  import opened Bytes
  import opened Web3
  import User
  import Utf8

  // ---------------------------------------------------------------------
  // Records

  /** What `getAccountInfo` returns for an existing account. */
  datatype AccountRecord = AccountRecord(owner: Key, data: seq<byte>)

  /** The accounts that exist, by address. */
  type Ledger = map<Key, AccountRecord>

  /** `MessageData`. `text` holds the UTF-8 bytes of the text; the string is
      their decoding (`Utf8.Decode`). */
  datatype MessageData = MessageData(messagePubkey: Key, nextMessage: Key, from: Key, programId: Key, text: seq<byte>)

  /** `Message`, one entry of the caller's feed array. */
  datatype Message = Message(publicKey: Key, from: Key, name: string, text: seq<byte>)

  /** The fields `messageAccountDataLayout.decode` yields. */
  datatype DecodedLayout = DecodedLayout(nextMessage: Key, from: Key, creator: Key, text: seq<byte>)

  function Min(a: nat, b: nat): nat { if a <= b then a else b }

  /** `lo.blob(32)` at `offset`: `Buffer.slice` clamps both ends to the
      buffer, so a short buffer gives a short blob. */
  function Blob(d: seq<byte>, offset: nat): (b: seq<byte>)
    ensures |b| <= KEY_SIZE
    ensures offset + KEY_SIZE <= |d| ==> b == d[offset..offset + KEY_SIZE]
  {
    d[Min(offset, |d|)..Min(offset + KEY_SIZE, |d|)]
  }

  /** `new PublicKey(bytes)`: the bytes are read as a big-endian number, so a
      blob shorter than 32 bytes is the key with that many leading zeros. */
  function PublicKeyOf(b: seq<byte>): (k: Key)
    requires |b| <= KEY_SIZE
    ensures k[KEY_SIZE - |b|..] == b
    ensures forall i :: 0 <= i < KEY_SIZE - |b| ==> k[i] == 0
  {
    Zeros(KEY_SIZE - |b|) + b
  }

  /** `lo.cstr` at `offset`: the bytes from `offset` up to the first zero
      byte or the end of the buffer. */
  function CString(d: seq<byte>, offset: nat): (t: seq<byte>)
    ensures 0 !in t
    ensures offset <= |d| ==> t == d[offset..IndexOfZero(d, offset)]
  {
    var start := Min(offset, |d|);
    d[start..IndexOfZero(d, start)]
  }

  /** `messageAccountDataLayout`: three 32-byte blobs, `nextMessage`,
      `from` and `creator`, then a C string. */
  function DecodeLayout(d: seq<byte>): (r: DecodedLayout)
    ensures 0 !in r.text
    ensures |d| < 3 * KEY_SIZE ==> r.text == []
  {
    DecodedLayout(PublicKeyOf(Blob(d, 0)), PublicKeyOf(Blob(d, KEY_SIZE)),
                  PublicKeyOf(Blob(d, 2 * KEY_SIZE)), CString(d, 3 * KEY_SIZE))
  }

  /** On a buffer of at least 96 bytes the fields are the bytes 0..32, 32..64
      and 64..96, and the text is what follows, up to a zero byte. */
  lemma DecodeLayoutFields(d: seq<byte>)
    requires |d| >= 3 * KEY_SIZE
    ensures DecodeLayout(d).nextMessage == d[..KEY_SIZE]
    ensures DecodeLayout(d).from == d[KEY_SIZE..2 * KEY_SIZE]
    ensures DecodeLayout(d).creator == d[2 * KEY_SIZE..3 * KEY_SIZE]
    ensures DecodeLayout(d).text == d[3 * KEY_SIZE..IndexOfZero(d, 3 * KEY_SIZE)]
  {
    assert Zeros(0) == [];
  }

  /** Decoding inverts the record layout for any text without a zero byte. */
  lemma {:induction false} DecodeLayoutOfRecord(next: Key, from: Key, creator: Key, text: seq<byte>)
    requires 0 !in text
    ensures DecodeLayout(next + from + creator + text) == DecodedLayout(next, from, creator, text)
  {
    var d := next + from + creator + text;
    DecodeLayoutFields(d);
    assert d[..KEY_SIZE] == next;
    assert d[KEY_SIZE..2 * KEY_SIZE] == from;
    assert d[2 * KEY_SIZE..3 * KEY_SIZE] == creator;
    assert forall j :: 3 * KEY_SIZE <= j < |d| ==> d[j] == text[j - 3 * KEY_SIZE];
    IndexOfZeroUnique(d, 3 * KEY_SIZE, |d|);
    assert d[3 * KEY_SIZE..] == text;
  }

  /** The all-zero record `readMessage` returns for an absent account. */
  const EMPTY_MESSAGE_DATA := MessageData(ZERO_KEY, ZERO_KEY, ZERO_KEY, ZERO_KEY, [])

  /** `readMessage`: fetch and decode one account. */
  function ReadMessage(ledger: Ledger, message: Key): MessageData
  {
    if message in ledger then
      var layout := DecodeLayout(ledger[message].data);
      MessageData(message, layout.nextMessage, layout.from, ledger[message].owner, layout.text)
    else
      EMPTY_MESSAGE_DATA
  }

  /** An absent account reads as all-zero keys and empty text; a present one
      as its own address, its owner and the decoded fields. */
  lemma ReadMessageCases(ledger: Ledger, message: Key)
    ensures message !in ledger ==>
      var r := ReadMessage(ledger, message);
      r.messagePubkey == ZERO_KEY && r.nextMessage == ZERO_KEY && r.from == ZERO_KEY
      && r.programId == ZERO_KEY && r.text == []
    ensures message in ledger ==>
      var r := ReadMessage(ledger, message);
      var layout := DecodeLayout(ledger[message].data);
      r.messagePubkey == message && r.programId == ledger[message].owner
      && r.nextMessage == layout.nextMessage && r.from == layout.from && r.text == layout.text
  {
  }

  // ---------------------------------------------------------------------
  // The chain
  //
  // The walk is stated over any successor function `next` and end marker
  // `end`; the feed instantiates them with `Links(ledger)` and `ZERO_KEY`.

  /** Following `next` from `k` reaches `end` within `steps` hops. The client
      keeps no visited set: on a cycle its walk does not end, and no bound
      exists. */
  ghost predicate ReachesEnd<K>(next: K -> K, end: K, k: K, steps: nat)
    decreases steps
  {
    k == end || (steps > 0 && ReachesEnd(next, end, next(k), steps - 1))
  }

  /** The nodes the walk visits from `k`, `end` excluded. */
  ghost function Chain<K>(next: K -> K, end: K, k: K, steps: nat): (c: seq<K>)
    requires ReachesEnd(next, end, k, steps)
    ensures |c| <= steps
    ensures c == [] <==> k == end
    decreases steps
  {
    if k == end then [] else [k] + Chain(next, end, next(k), steps - 1)
  }

  /** A walk, stated without recursion: it starts at `k`, each node is the
      successor of the one before, none is `end`, and the last one's
      successor is `end`. */
  ghost predicate IsWalk<K>(next: K -> K, end: K, k: K, c: seq<K>)
  {
    && (c == [] <==> k == end)
    && (c != [] ==> c[0] == k && next(c[|c| - 1]) == end)
    && (forall i :: 0 <= i < |c| ==> c[i] != end)
    && (forall i :: 0 <= i < |c| - 1 ==> c[i + 1] == next(c[i]))
  }

  /** `Chain` is a walk. */
  lemma {:induction false} ChainIsWalk<K>(next: K -> K, end: K, k: K, steps: nat)
    requires ReachesEnd(next, end, k, steps)
    ensures IsWalk(next, end, k, Chain(next, end, k, steps))
    decreases steps
  {
    if k != end {
      ChainIsWalk(next, end, next(k), steps - 1);
      var rest := Chain(next, end, next(k), steps - 1);
      var c := Chain(next, end, k, steps);
      assert c == [k] + rest;
      forall i | 0 <= i < |c| - 1
        ensures c[i + 1] == next(c[i])
      {
        if i > 0 { assert c[i] == rest[i - 1] && c[i + 1] == rest[i]; }
      }
    }
  }

  /** Every walk is the chain: the walk from a node is unique, and its length
      bounds the hops to the end. */
  lemma {:induction false} WalkIsChain<K>(next: K -> K, end: K, k: K, c: seq<K>)
    requires IsWalk(next, end, k, c)
    ensures ReachesEnd(next, end, k, |c|)
    ensures Chain(next, end, k, |c|) == c
    decreases |c|
  {
    if c != [] {
      var rest := c[1..];
      assert rest != [] ==> rest[0] == next(k);
      forall i | 0 <= i < |rest| - 1 ensures rest[i + 1] == next(rest[i]) {
        assert rest[i] == c[i + 1] && rest[i + 1] == c[i + 2];
      }
      WalkIsChain(next, end, next(k), rest);
      assert c == [k] + rest;
    }
  }

  /** The bound is only a witness of termination: it does not change the
      chain. */
  lemma {:induction false} ChainBoundIrrelevant<K>(next: K -> K, end: K, k: K, n: nat, m: nat)
    requires ReachesEnd(next, end, k, n) && ReachesEnd(next, end, k, m)
    ensures Chain(next, end, k, n) == Chain(next, end, k, m)
    decreases n
  {
    if k != end {
      ChainBoundIrrelevant(next, end, next(k), n - 1, m - 1);
    }
  }

  /** A larger bound still witnesses termination. */
  lemma {:induction false} ReachesEndMonotone<K>(next: K -> K, end: K, k: K, n: nat, m: nat)
    requires ReachesEnd(next, end, k, n) && n <= m
    ensures ReachesEnd(next, end, k, m)
    decreases n
  {
    if k != end {
      ReachesEndMonotone(next, end, next(k), n - 1, m - 1);
    }
  }

  /** From its `i`-th node on, the chain is the chain of that node. */
  lemma {:induction false} ChainSuffix<K>(next: K -> K, end: K, k: K, n: nat, i: nat)
    requires ReachesEnd(next, end, k, n)
    requires i < |Chain(next, end, k, n)|
    ensures ReachesEnd(next, end, Chain(next, end, k, n)[i], n - i)
    ensures Chain(next, end, k, n)[i..] == Chain(next, end, Chain(next, end, k, n)[i], n - i)
    decreases i
  {
    if i > 0 {
      ChainSuffix(next, end, next(k), n - 1, i - 1);
      assert Chain(next, end, k, n)[i..] == Chain(next, end, next(k), n - 1)[i - 1..];
    }
  }

  /** A walk that ends visits no node twice, so the feed holds no message
      twice. */
  lemma ChainHasNoRepeats<K>(next: K -> K, end: K, k: K, n: nat, i: nat, j: nat)
    requires ReachesEnd(next, end, k, n)
    requires i < j < |Chain(next, end, k, n)|
    ensures Chain(next, end, k, n)[i] != Chain(next, end, k, n)[j]
  {
    var c := Chain(next, end, k, n);
    ChainSuffix(next, end, k, n, i);
    ChainSuffix(next, end, k, n, j);
    if c[i] == c[j] {
      ChainBoundIrrelevant(next, end, c[i], n - i, n - j);
      assert false;
    }
  }

  /** Linking a new last node: if `after` agrees with `before` on the chain
      but its tail, sends the tail to `newKey` and `newKey` to `end`, the chain
      under `after` is the old chain with `newKey` appended. */
  lemma {:induction false} AppendExtendsChain<K>(before: K -> K, after: K -> K, end: K, k: K, n: nat, newKey: K)
    requires ReachesEnd(before, end, k, n) && k != end
    requires newKey != end && after(newKey) == end
    requires var c := Chain(before, end, k, n);
      && after(c[|c| - 1]) == newKey
      && forall i :: 0 <= i < |c| - 1 ==> after(c[i]) == before(c[i])
    ensures ReachesEnd(after, end, k, n + 1)
    ensures Chain(after, end, k, n + 1) == Chain(before, end, k, n) + [newKey]
  {
    var c := Chain(before, end, k, n);
    ChainIsWalk(before, end, k, n);
    var c' := c + [newKey];
    forall i | 0 <= i < |c'| - 1 ensures c'[i + 1] == after(c'[i]) {
      if i < |c| - 1 {
        assert c'[i] == c[i] && c'[i + 1] == c[i + 1];
      }
    }
    assert IsWalk(after, end, k, c');
    WalkIsChain(after, end, k, c');
    ReachesEndMonotone(after, end, k, |c'|, n + 1);
    ChainBoundIrrelevant(after, end, k, |c'|, n + 1);
  }

  /** The pointer the client follows out of `k`. */
  function NextOf(ledger: Ledger, k: Key): (next: Key)
    ensures k !in ledger ==> next == ZERO_KEY
    ensures k in ledger ==> next == DecodeLayout(ledger[k].data).nextMessage
  {
    ReadMessage(ledger, k).nextMessage
  }

  /** The successor function of a ledger's feed. */
  function Links(ledger: Ledger): Key -> Key
  {
    k => NextOf(ledger, k)
  }

  /** Applying `Links` is following one pointer. */
  lemma LinksAt(ledger: Ledger, k: Key)
    ensures Links(ledger)(k) == NextOf(ledger, k)
  {
  }

  // ---------------------------------------------------------------------
  // The feed entries

  /** The entry `refreshMessageFeed` pushes for address `k`; `nameOf` is
      `publicKeyToName`, a pure function of the key. */
  function Entry(ledger: Ledger, k: Key, nameOf: Key -> string): (e: Message)
    ensures e.publicKey == k
    ensures e.from == ReadMessage(ledger, k).from && e.name == nameOf(e.from)
    ensures e.text == ReadMessage(ledger, k).text
  {
    var data := ReadMessage(ledger, k);
    Message(k, data.from, nameOf(data.from), data.text)
  }

  /** The entries for a list of addresses, in order. */
  function Entries(ledger: Ledger, keys: seq<Key>, nameOf: Key -> string): (es: seq<Message>)
    ensures |es| == |keys|
    ensures forall i :: 0 <= i < |keys| ==> es[i] == Entry(ledger, keys[i], nameOf)
  {
    if keys == [] then [] else [Entry(ledger, keys[0], nameOf)] + Entries(ledger, keys[1..], nameOf)
  }

  /** Where a refresh starts walking: the given address, or else the
      `nextMessage` of the array's last entry, or nowhere for an empty array. */
  function ResumePoint(ledger: Ledger, messages: seq<Message>, start: Option<Key>): (p: Option<Key>)
    ensures start.Some? ==> p == start
    ensures start.None? && messages == [] ==> p.None?
    ensures start.None? && messages != [] ==> p == Some(NextOf(ledger, messages[|messages| - 1].publicKey))
  {
    match start
    case Some(k) => Some(k)
    case None =>
      if messages == [] then None
      else Some(ReadMessage(ledger, messages[|messages| - 1].publicKey).nextMessage)
  }

  /** The caller-owned `messages` array. */
  class MessageArray {
    var elements: seq<Message>

    constructor ()
      ensures elements == []
    {
      elements := [];
    }
  }

  /** The entries a walk from `k` collects. */
  ghost function FeedFrom(ledger: Ledger, k: Key, steps: nat, nameOf: Key -> string): seq<Message>
    requires ReachesEnd(Links(ledger), ZERO_KEY, k, steps)
  {
    Entries(ledger, Chain(Links(ledger), ZERO_KEY, k, steps), nameOf)
  }

  /** One step of the walk: the entry of `k`, then the feed from its
      successor. */
  lemma FeedFromStep(ledger: Ledger, done: seq<Message>, k: Key, steps: nat, nameOf: Key -> string)
    requires ReachesEnd(Links(ledger), ZERO_KEY, k, steps) && k != ZERO_KEY
    ensures ReachesEnd(Links(ledger), ZERO_KEY, ReadMessage(ledger, k).nextMessage, steps - 1)
    ensures done + FeedFrom(ledger, k, steps, nameOf)
         == (done + [Entry(ledger, k, nameOf)]) + FeedFrom(ledger, ReadMessage(ledger, k).nextMessage, steps - 1, nameOf)
  {
    var next := Links(ledger);
    assert next(k) == ReadMessage(ledger, k).nextMessage;
    var rest := Chain(next, ZERO_KEY, next(k), steps - 1);
    assert Chain(next, ZERO_KEY, k, steps) == [k] + rest;
    assert ([k] + rest)[1..] == rest;
  }

  /** The loop of `refreshMessageFeed`: from `message`, push one entry per
      visited address until the pointer is the all-zero key, counting the
      callback runs. */
  method PushFeedFrom(ledger: Ledger, messages: MessageArray, hasCallback: bool,
                      message: Key, nameOf: Key -> string, ghost bound: nat)
    returns (notified: nat)
    requires ReachesEnd(Links(ledger), ZERO_KEY, message, bound)
    modifies messages
    ensures messages.elements == old(messages.elements) + FeedFrom(ledger, message, bound, nameOf)
    ensures notified == (if hasCallback then |FeedFrom(ledger, message, bound, nameOf)| else 0)
  {
    notified := 0;
    var current := message;
    ghost var remaining := bound;
    ghost var done: seq<Message> := [];
    while current != ZERO_KEY
      invariant ReachesEnd(Links(ledger), ZERO_KEY, current, remaining)
      invariant messages.elements == old(messages.elements) + done
      invariant FeedFrom(ledger, message, bound, nameOf) == done + FeedFrom(ledger, current, remaining, nameOf)
      invariant notified == (if hasCallback then |done| else 0)
      decreases remaining
    {
      var messageData := ReadMessage(ledger, current);
      FeedFromStep(ledger, done, current, remaining, nameOf);
      var entry := Message(current, messageData.from, nameOf(messageData.from), messageData.text);
      assert entry == Entry(ledger, current, nameOf);
      messages.elements := messages.elements + [entry];
      done := done + [entry];
      if hasCallback {
        notified := notified + 1;
      }
      current := messageData.nextMessage;
      remaining := remaining - 1;
    }
  }

  /** `refreshMessageFeed`: walk from the resume point (the given address,
      or the successor of the array's last entry), pushing the entries of the
      feed it reaches; returns how many times the `onNewMessage` callback ran
      (once per push when there is one). The `for(;;)` loop's null test only
      holds on its first round, so it is done before the loop. `bound`
      witnesses that the walk ends. */
  method RefreshMessageFeed(ledger: Ledger, messages: MessageArray, hasCallback: bool,
                            start: Option<Key>, nameOf: Key -> string, ghost bound: nat)
    returns (notified: nat)
    requires ResumePoint(ledger, messages.elements, start).Some? ==>
      ReachesEnd(Links(ledger), ZERO_KEY, ResumePoint(ledger, messages.elements, start).value, bound)
    modifies messages
    ensures ResumePoint(ledger, old(messages.elements), start).None? ==>
      messages.elements == old(messages.elements) && notified == 0
    ensures ResumePoint(ledger, old(messages.elements), start).Some? ==>
      var added := FeedFrom(ledger, ResumePoint(ledger, old(messages.elements), start).value, bound, nameOf);
      && messages.elements == old(messages.elements) + added
      && notified == (if hasCallback then |added| else 0)
  {
    var message: Key;
    if start.None? {
      if |messages.elements| == 0 {
        return 0;
      }
      var lastMessage := messages.elements[|messages.elements| - 1].publicKey;
      var lastMessageData := ReadMessage(ledger, lastMessage);
      message := lastMessageData.nextMessage;
    } else {
      message := start.value;
    }
    notified := PushFeedFrom(ledger, messages, hasCallback, message, nameOf, bound);
  }

  /** A refresh of an empty array from the feed's first record collects the
      whole feed, and a second refresh with no start and no intervening post
      resumes at the zero key, so it adds nothing. */
  lemma RefreshIsIdempotent(ledger: Ledger, first: Key, n: nat, nameOf: Key -> string)
    requires ReachesEnd(Links(ledger), ZERO_KEY, first, n) && first != ZERO_KEY
    ensures ResumePoint(ledger, FeedFrom(ledger, first, n, nameOf), None) == Some(ZERO_KEY)
  {
    ChainIsWalk(Links(ledger), ZERO_KEY, first, n);
  }

  // ---------------------------------------------------------------------
  // Posting

  /** The posting instruction's key list: the user and the new message as
      signers, then the previous message as writable when there is one, then
      the user to ban only when there is a previous message. */
  ghost predicate IsPostKeys(keys: seq<AccountMeta>, user: Key, messageAccount: Key,
                             previous: Option<Key>, userToBan: Option<Key>)
  {
    && |keys| == 2 + (if previous.Some? then 1 else 0) + (if previous.Some? && userToBan.Some? then 1 else 0)
    && keys[0] == AccountMeta(user, true, false)
    && keys[1] == AccountMeta(messageAccount, true, false)
    && (previous.Some? ==> keys[2] == AccountMeta(previous.value, false, true))
    && (previous.Some? && userToBan.Some? ==> keys[3] == AccountMeta(userToBan.value, false, true))
  }

  /** `postMessageWithProgramId`: a transaction that allocates the message
      account with room for the text, creates a user first when none is
      given (`newUserKey` stands for that user's `new Account()`), and then
      posts the text. Sending it is not modelled: the transaction and its
      signers are returned. */
  method PostMessageWithProgramId(programId: Key, payer: Key, userAccountArg: Option<Key>,
                                  messageAccount: Key, text: string,
                                  previous: Option<Key>, userToBan: Option<Key>, newUserKey: Key)
    returns (transaction: Transaction, signers: seq<Key>)
    ensures fresh(transaction)
    ensures var user := if userAccountArg.Some? then userAccountArg.value else newUserKey;
      var ixs := transaction.instructions;
      && signers == [payer, user, messageAccount]
      && |ixs| == (if userAccountArg.Some? then 2 else 4)
      && ixs[0] == CreateAccount(payer, messageAccount, User.MessageAccountSize(text), programId)
      && (userAccountArg.None? ==>
            && ixs[1] == CreateAccount(payer, newUserKey, User.USER_ACCOUNT_SIZE, programId)
            && User.IsUserInit(ixs[2], newUserKey, Some(messageAccount), programId))
      && ixs[|ixs| - 1].Invoke?
      && ixs[|ixs| - 1].programId == programId
      && ixs[|ixs| - 1].data == Utf8.Encode(text)
      && IsPostKeys(ixs[|ixs| - 1].keys, user, messageAccount, previous, userToBan)
  {
    transaction := new Transaction();
    var dataSize := User.MessageAccountSize(text);
    var textBuffer := Utf8.Encode(text);
    transaction.Add(CreateAccount(payer, messageAccount, dataSize, programId));
    var user: Key;
    if userAccountArg.None? {
      user := User.CreateUserAccount(programId, payer, Some(messageAccount), transaction, newUserKey);
    } else {
      user := userAccountArg.value;
    }
    var keys := [AccountMeta(user, true, false), AccountMeta(messageAccount, true, false)];
    if previous.Some? {
      keys := keys + [AccountMeta(previous.value, false, true)];
      if userToBan.Some? {
        keys := keys + [AccountMeta(userToBan.value, false, true)];
      }
    }
    transaction.Add(Invoke(keys, programId, textBuffer));
    signers := [payer, user, messageAccount];
  }

  /** `postMessage`: post after `previousMessage` to the program that owns
      it (read from the ledger; the zero key when the account is absent), as
      an existing user; `messageAccount` stands for the new `Account()`. */
  method PostMessage(ledger: Ledger, payer: Key, userAccount: Key, text: string,
                     previousMessage: Key, userToBan: Option<Key>, messageAccount: Key)
    returns (transaction: Transaction, signers: seq<Key>)
    ensures fresh(transaction)
    ensures var programId := if previousMessage in ledger then ledger[previousMessage].owner else ZERO_KEY;
      var ixs := transaction.instructions;
      && signers == [payer, userAccount, messageAccount]
      && |ixs| == 2
      && ixs[0] == CreateAccount(payer, messageAccount, User.MessageAccountSize(text), programId)
      && ixs[1].Invoke? && ixs[1].programId == programId && ixs[1].data == Utf8.Encode(text)
      && IsPostKeys(ixs[1].keys, userAccount, messageAccount, Some(previousMessage), userToBan)
  {
    var messageData := ReadMessage(ledger, previousMessage);
    transaction, signers := PostMessageWithProgramId(messageData.programId, payer, Some(userAccount),
                                                     messageAccount, text, Some(previousMessage),
                                                     userToBan, userAccount);
  }

  /** The text of a feed's first post, "First post! " and U+1F4AB. */
  const FIRST_MESSAGE: string := "First post! " + [DIZZY]
  const DIZZY: char := '\U{1F4AB}'

  /** `createMessageFeed`: the first post of a new feed, by a new user
      (`userKey`), with no predecessor. The fee and funding steps are not
      modelled. */
  method CreateMessageFeed(programId: Key, payer: Key, firstMessageAccount: Key, userKey: Key)
    returns (transaction: Transaction, signers: seq<Key>)
    ensures fresh(transaction)
    ensures var ixs := transaction.instructions;
      && signers == [payer, userKey, firstMessageAccount]
      && |ixs| == 4
      && ixs[0] == CreateAccount(payer, firstMessageAccount, User.MessageAccountSize(FIRST_MESSAGE), programId)
      && ixs[1] == CreateAccount(payer, userKey, User.USER_ACCOUNT_SIZE, programId)
      && User.IsUserInit(ixs[2], userKey, Some(firstMessageAccount), programId)
      && ixs[3] == Invoke([AccountMeta(userKey, true, false), AccountMeta(firstMessageAccount, true, false)],
                          programId, Utf8.Encode(FIRST_MESSAGE))
  {
    transaction, signers := PostMessageWithProgramId(programId, payer, None, firstMessageAccount,
                                                     FIRST_MESSAGE, None, None, userKey);
  }
}
