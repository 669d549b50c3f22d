/** The client's user accounts (src/client/user.ts): account sizes and the
    instructions that create and initialise a user. */
module User {
  import opened Bytes
  import opened Web3
  import Utf8

  /** `userAccountSize`: one `banned` byte and a 32-byte creator key. */
  const USER_ACCOUNT_SIZE: nat := 1 + KEY_SIZE

  /** `messageAccountSize(text)`: three keys and the UTF-8 bytes of the text
      (`Buffer.from(text).length`). */
  function MessageAccountSize(text: string): (size: nat)
    ensures 3 * KEY_SIZE + |text| <= size <= 3 * KEY_SIZE + 4 * |text|
  {
    3 * KEY_SIZE + |Utf8.Encode(text)|
  }

  /** A message account grows strictly with the byte length of its text and
      is never smaller than the three keys. */
  lemma MessageAccountSizeIncreasing(a: string, b: string)
    requires |Utf8.Encode(a)| < |Utf8.Encode(b)|
    ensures 3 * KEY_SIZE <= MessageAccountSize(a) < MessageAccountSize(b)
  {
  }

  /** The user-initialisation instruction: the user key as signer, then the
      message key as signer when there is one, and no data. */
  ghost predicate IsUserInit(ix: TransactionInstruction, user: Key, messageAccount: Option<Key>, programId: Key)
  {
    && ix.Invoke?
    && ix.programId == programId
    && ix.data == []
    && |ix.keys| == (if messageAccount.Some? then 2 else 1)
    && ix.keys[0] == AccountMeta(user, true, false)
    && (messageAccount.Some? ==> ix.keys[1] == AccountMeta(messageAccount.value, true, false))
  }

  /** `createUserAccount`: adds to `transaction` the allocation of a
      `USER_ACCOUNT_SIZE` account for the new user key `userKey` (generated by
      `new Account()`, so a parameter here) and the instruction that
      initialises it. */
  method CreateUserAccount(programId: Key, payer: Key, messageAccount: Option<Key>,
                           transaction: Transaction, userKey: Key) returns (user: Key)
    modifies transaction
    ensures user == userKey
    ensures |transaction.instructions| == |old(transaction.instructions)| + 2
    ensures transaction.instructions[..|old(transaction.instructions)|] == old(transaction.instructions)
    ensures transaction.instructions[|old(transaction.instructions)|]
            == CreateAccount(payer, userKey, USER_ACCOUNT_SIZE, programId)
    ensures IsUserInit(transaction.instructions[|old(transaction.instructions)| + 1],
                       userKey, messageAccount, programId)
  {
    user := userKey;
    transaction.Add(CreateAccount(payer, user, USER_ACCOUNT_SIZE, programId));
    var keys := [AccountMeta(user, true, false)];
    if messageAccount.Some? {
      keys := keys + [AccountMeta(messageAccount.value, true, false)];
    }
    transaction.Add(Invoke(keys, programId, []));
  }

  /** `createUser`: a transaction holding just the user's creation; sending it
      is not modelled, so the transaction and its signers are returned. */
  method CreateUser(programId: Key, payer: Key, messageAccount: Key, userKey: Key)
    returns (transaction: Transaction, signers: seq<Key>, user: Key)
    ensures fresh(transaction)
    ensures user == userKey && signers == [payer, userKey, messageAccount]
    ensures |transaction.instructions| == 2
    ensures transaction.instructions[0] == CreateAccount(payer, userKey, USER_ACCOUNT_SIZE, programId)
    ensures IsUserInit(transaction.instructions[1], userKey, Some(messageAccount), programId)
  {
    transaction := new Transaction();
    user := CreateUserAccount(programId, payer, Some(messageAccount), transaction, userKey);
    signers := [payer, user, messageAccount];
  }
}
