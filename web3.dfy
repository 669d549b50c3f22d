/** The pieces of the Solana web3.js client library that the feed client
    builds: account metas, instructions, and a transaction that collects
    instructions. Lamports, blockhashes, signing and sending are not
    modelled. */
module Web3 {
  import opened Bytes

  /** `{pubkey, isSigner, isWritable}` in an instruction's key list. */
  datatype AccountMeta = AccountMeta(pubkey: Key, isSigner: bool, isWritable: bool)

  datatype TransactionInstruction =
    /** `SystemProgram.createAccount`: a new zero-filled account of `space`
        bytes owned by `programId` (the lamports are not modelled). */
    | CreateAccount(fromPubkey: Key, newAccountPubkey: Key, space: nat, programId: Key)
    /** `{keys, programId, data}`: an instruction for a program. */
    | Invoke(keys: seq<AccountMeta>, programId: Key, data: seq<byte>)

  /** `Transaction`: the instructions added so far, in order. */
  class Transaction {
    var instructions: seq<TransactionInstruction>

    constructor ()
      ensures instructions == []
    {
      instructions := [];
    }

    /** `transaction.add(instruction)`. */
    method Add(ix: TransactionInstruction)
      modifies this
      ensures instructions == old(instructions) + [ix]
    {
      instructions := instructions + [ix];
    }
  }
}
