/** How the client (src/client) and the on-chain program
    (src/program-rust/src/lib.rs) fit together: the sizes the client
    allocates are the ones the program needs, the client's decoding of a
    message account agrees with the program's view of it, the text the
    program accepts reads back, and a successful post extends the feed the
    client walks by exactly the new message. */
module Agreement {
  import opened Bytes
  import Utf8
  import Program
  import User
  import Message

  /** The user account the client allocates is the one the program reads,
      and a message account has room for exactly the three keys and the
      instruction data the client sends (`Buffer.from(text)`), which is
      the length the program's `clone_from_slice` demands. */
  lemma AccountSizesMatchLayouts(text: string)
    ensures User.USER_ACCOUNT_SIZE == Program.USER_DATA_SIZE
    ensures User.MessageAccountSize(text) == Program.TEXT_OFFSET + |Utf8.Encode(text)|
  {
  }

  /** A post with empty text sends empty instruction data, which the
      program takes for a user initialisation (lib.rs:117-121), not a post. */
  lemma EmptyTextIsEmptyInstruction(text: string)
    ensures Utf8.Encode(text) == [] <==> text == []
  {
  }

  /** On any message buffer, the client's decoding yields the program's
      three keys, and its text is the program's text cut at the first zero
      byte. */
  lemma ClientSeesProgramLayout(d: seq<byte>)
    requires |d| >= Program.TEXT_OFFSET
    ensures var client := Message.DecodeLayout(d);
      var view := Program.MessageLayout(d);
      && client.nextMessage == view.nextMessage
      && client.from == view.from
      && client.creator == view.creator
      && client.text == view.text[..IndexOfZero(view.text, 0)]
  {
    Message.DecodeLayoutFields(d);
    var text := d[Program.TEXT_OFFSET..];
    assert Program.MessageLayout(d).text == text;
    IndexOfZeroFrom(d, Program.TEXT_OFFSET);
  }

  /** Text the program accepted (valid UTF-8) always decodes on the client,
      even if it holds a zero byte. */
  lemma AcceptedTextDecodes(d: seq<byte>)
    requires |d| >= Program.TEXT_OFFSET
    requires Utf8.Valid(Program.MessageLayout(d).text)
    ensures Utf8.Decode(Message.DecodeLayout(d).text).Some?
  {
    var text := Program.MessageLayout(d).text;
    ClientSeesProgramLayout(d);
    Utf8.PrefixBeforeZeroIsValid(text);
    Utf8.DecodeSucceedsIffValid(Message.DecodeLayout(d).text);
  }

  /** A record the program writes for a text without U+0000 reads back, key
      for key and character for character. */
  lemma PostedTextReadsBack(next: Key, from: Key, creator: Key, text: string)
    requires '\0' !in text
    ensures var d := Program.MessageBytes(Program.MessageAccountData(next, from, creator, Utf8.Encode(text)));
      && Message.DecodeLayout(d) == Message.DecodedLayout(next, from, creator, Utf8.Encode(text))
      && Utf8.Decode(Message.DecodeLayout(d).text) == Some(text)
  {
    Utf8.ZeroByteIffNul(text);
    Message.DecodeLayoutOfRecord(next, from, creator, Utf8.Encode(text));
    Utf8.DecodeEncode(text);
  }

  /** A text holding U+0000 is stored whole but reads back only up to its
      first U+0000: `cstr` stops at the zero byte. */
  lemma PostedTextTruncatedAtNul(next: Key, from: Key, creator: Key, s: string, t: string)
    requires '\0' !in s
    ensures var d := Program.MessageBytes(Program.MessageAccountData(next, from, creator, Utf8.Encode(s + ['\0'] + t)));
      Utf8.Decode(Message.DecodeLayout(d).text) == Some(s)
  {
    var bytes := Utf8.Encode(s + ['\0'] + t);
    Utf8.EncodeAppend(s + ['\0'], t);
    Utf8.EncodeAppend(s, ['\0']);
    assert Utf8.Encode(['\0']) == [0];
    assert bytes == Utf8.Encode(s) + [0] + Utf8.Encode(t);
    Utf8.ZeroByteIffNul(s);
    IndexOfZeroUnique(bytes, 0, |Utf8.Encode(s)|);
    assert bytes[..IndexOfZero(bytes, 0)] == Utf8.Encode(s);
    var d := Program.MessageBytes(Program.MessageAccountData(next, from, creator, bytes));
    Program.MessageLayoutOfBytes(Program.MessageAccountData(next, from, creator, bytes));
    ClientSeesProgramLayout(d);
    Utf8.DecodeEncode(s);
  }

  /** The accounts a post may mark as banned: present, at least a user
      account long, and neither the predecessor nor the new message (the
      program borrows each buffer once). */
  predicate BanTarget(before: Message.Ledger, tail: Key, newKey: Key, ban: Option<Key>)
  {
    ban.Some? ==>
      && ban.value in before && |before[ban.value].data| >= Program.USER_DATA_SIZE
      && ban.value != tail && ban.value != newKey
  }

  /** The ledger after a successful post of `newKey` after `tail`: the
      program rewrote the predecessor's `next_message`, the new account
      holds `record`, and the user to ban, if any, has byte 0 set to 1. */
  function AfterPost(before: Message.Ledger, tail: Key, newKey: Key, record: Message.AccountRecord,
                     ban: Option<Key>): (after: Message.Ledger)
    requires tail in before && |before[tail].data| >= Program.TEXT_OFFSET && tail != newKey
    requires BanTarget(before, tail, newKey, ban)
    ensures after.Keys == before.Keys + {newKey}
    ensures after[newKey] == record
    ensures after[tail].owner == before[tail].owner && |after[tail].data| == |before[tail].data|
    ensures Program.MessageLayout(after[tail].data) == Program.MessageLayout(before[tail].data).(nextMessage := newKey)
    ensures ban.Some? ==>
      after[ban.value] == Message.AccountRecord(before[ban.value].owner, before[ban.value].data[Program.BANNED_OFFSET := 1])
    ensures forall k :: k in before && k != tail && k != newKey && ban != Some(k) ==> after[k] == before[k]
  {
    var relinked := Program.MessageLayout(before[tail].data).(nextMessage := newKey);
    Program.MessageLayoutOfBytes(relinked);
    var linked := before[tail := Message.AccountRecord(before[tail].owner, Program.MessageBytes(relinked))][newKey := record];
    if ban.Some? then
      linked[ban.value := Message.AccountRecord(before[ban.value].owner, before[ban.value].data[Program.BANNED_OFFSET := 1])]
    else linked
  }

  /** The buffers `Program.ProcessInstruction` leaves behind on a successful
      post with a predecessor are those of `AfterPost`: the predecessor's
      buffer, whose view is the old one relinked, and the banned account's,
      whose byte 0 is set. */
  lemma ProgramWritesAfterPost(before: Message.Ledger, tail: Key, newKey: Key, record: Message.AccountRecord,
                               ban: Option<Key>, tailData: seq<byte>, banData: seq<byte>)
    requires tail in before && |before[tail].data| >= Program.TEXT_OFFSET && tail != newKey
    requires BanTarget(before, tail, newKey, ban)
    requires |tailData| >= Program.TEXT_OFFSET
    requires Program.MessageLayout(tailData) == Program.MessageLayout(before[tail].data).(nextMessage := newKey)
    requires ban.Some? ==> banData == before[ban.value].data[Program.BANNED_OFFSET := 1]
    ensures var after := AfterPost(before, tail, newKey, record, ban);
      && after[tail] == Message.AccountRecord(before[tail].owner, tailData)
      && (ban.Some? ==> after[ban.value] == Message.AccountRecord(before[ban.value].owner, banData))
  {
    var after := AfterPost(before, tail, newKey, record, ban);
    assert Program.MessageBytes(Program.MessageLayout(tailData)) == tailData;
    assert Program.MessageBytes(Program.MessageLayout(after[tail].data)) == after[tail].data;
  }

  /** A user to ban that is itself a message account shows, after the post,
      its pointer with the first byte set to 1: the ban overwrites byte 0 of
      its `next_message`. Its author and text still read the same. */
  lemma BanRewritesPointer(before: Message.Ledger, tail: Key, newKey: Key, record: Message.AccountRecord,
                           ban: Key, nameOf: Key -> string)
    requires tail in before && |before[tail].data| >= Program.TEXT_OFFSET && tail != newKey
    requires BanTarget(before, tail, newKey, Some(ban)) && |before[ban].data| >= Program.TEXT_OFFSET
    ensures var after := AfterPost(before, tail, newKey, record, Some(ban));
      && Message.NextOf(after, ban) == Message.NextOf(before, ban)[0 := 1]
      && Message.Entry(after, ban, nameOf) == Message.Entry(before, ban, nameOf)
  {
    var d := before[ban].data;
    var d' := d[Program.BANNED_OFFSET := 1];
    ClientSeesProgramLayout(d);
    ClientSeesProgramLayout(d');
    assert d'[Program.TEXT_OFFSET..] == d[Program.TEXT_OFFSET..];
    assert d'[KEY_SIZE..2 * KEY_SIZE] == d[KEY_SIZE..2 * KEY_SIZE];
    assert d'[..KEY_SIZE] == d[..KEY_SIZE][0 := 1];
  }

  /** Rewriting `next_message` changes only that field of what the client
      decodes. */
  lemma RelinkKeepsEntry(d: seq<byte>, newKey: Key)
    requires |d| >= Program.TEXT_OFFSET
    ensures var d' := Program.MessageBytes(Program.MessageLayout(d).(nextMessage := newKey));
      Message.DecodeLayout(d') == Message.DecodeLayout(d).(nextMessage := newKey)
  {
    var m := Program.MessageLayout(d).(nextMessage := newKey);
    var d' := Program.MessageBytes(m);
    Program.MessageLayoutOfBytes(m);
    ClientSeesProgramLayout(d);
    ClientSeesProgramLayout(d');
  }

  /** What the client sees at the two accounts a post writes: the tail now
      points at the new message but shows the same entry, and the new
      message ends the feed. */
  lemma PostRelinksTail(before: Message.Ledger, tail: Key, newKey: Key,
                        record: Message.AccountRecord, ban: Option<Key>, nameOf: Key -> string)
    requires tail in before && |before[tail].data| >= Program.TEXT_OFFSET && tail != newKey
    requires BanTarget(before, tail, newKey, ban)
    requires |record.data| >= Program.TEXT_OFFSET && Program.MessageLayout(record.data).nextMessage == ZERO_KEY
    ensures var after := AfterPost(before, tail, newKey, record, ban);
      && Message.NextOf(after, tail) == newKey
      && Message.Entry(after, tail, nameOf) == Message.Entry(before, tail, nameOf)
      && Message.NextOf(after, newKey) == ZERO_KEY
  {
    RelinkKeepsEntry(before[tail].data, newKey);
    ClientSeesProgramLayout(record.data);
  }

  /** Every address a post does not write (neither the predecessor, the new
      message nor the user to ban) shows the same pointer and entry after
      it. */
  lemma PostKeepsOthers(before: Message.Ledger, tail: Key, newKey: Key,
                        record: Message.AccountRecord, ban: Option<Key>, nameOf: Key -> string, k: Key)
    requires tail in before && |before[tail].data| >= Program.TEXT_OFFSET && tail != newKey
    requires BanTarget(before, tail, newKey, ban)
    requires k != tail && k != newKey && ban != Some(k)
    ensures var after := AfterPost(before, tail, newKey, record, ban);
      && Message.NextOf(after, k) == Message.NextOf(before, k)
      && Message.Entry(after, k, nameOf) == Message.Entry(before, k, nameOf)
  {
    var after := AfterPost(before, tail, newKey, record, ban);
    assert (k in after) == (k in before);
    assert k in before ==> after[k] == before[k];
  }

  /** Two ledgers that show the same entry for every address in `keys` give
      the same entries for `keys`. */
  lemma EntriesAgree(l1: Message.Ledger, l2: Message.Ledger, keys: seq<Key>, nameOf: Key -> string)
    requires forall i :: 0 <= i < |keys| ==> Message.Entry(l1, keys[i], nameOf) == Message.Entry(l2, keys[i], nameOf)
    ensures Message.Entries(l1, keys, nameOf) == Message.Entries(l2, keys, nameOf)
  {
  }

  /** Every address of the feed before its tail shows the same pointer and
      entry after a post whose user to ban, if any, is off the feed. */
  lemma FeedUntouchedBeforeTail(before: Message.Ledger, first: Key, n: nat, tail: Key,
                                newKey: Key, record: Message.AccountRecord, ban: Option<Key>,
                                nameOf: Key -> string)
    requires Message.ReachesEnd(Message.Links(before), ZERO_KEY, first, n) && first != ZERO_KEY
    requires var c := Message.Chain(Message.Links(before), ZERO_KEY, first, n); tail == c[|c| - 1]
    requires tail in before && |before[tail].data| >= Program.TEXT_OFFSET && tail != newKey
    requires BanTarget(before, tail, newKey, ban)
    requires newKey !in Message.Chain(Message.Links(before), ZERO_KEY, first, n)
    requires ban.Some? ==> ban.value !in Message.Chain(Message.Links(before), ZERO_KEY, first, n)
    ensures var c := Message.Chain(Message.Links(before), ZERO_KEY, first, n);
      var after := AfterPost(before, tail, newKey, record, ban);
      forall i :: 0 <= i < |c| - 1 ==>
        && Message.Links(after)(c[i]) == Message.Links(before)(c[i])
        && Message.Entry(after, c[i], nameOf) == Message.Entry(before, c[i], nameOf)
  {
    var c := Message.Chain(Message.Links(before), ZERO_KEY, first, n);
    var after := AfterPost(before, tail, newKey, record, ban);
    forall i | 0 <= i < |c| - 1
      ensures Message.Links(after)(c[i]) == Message.Links(before)(c[i])
      ensures Message.Entry(after, c[i], nameOf) == Message.Entry(before, c[i], nameOf)
    {
      Message.ChainHasNoRepeats(Message.Links(before), ZERO_KEY, first, n, i, |c| - 1);
      assert c[i] != tail && c[i] != newKey && ban != Some(c[i]);
      PostKeepsOthers(before, tail, newKey, record, ban, nameOf, c[i]);
      Message.LinksAt(before, c[i]);
      Message.LinksAt(after, c[i]);
    }
  }

  /** The feed's entries before the post read the same after it. */
  lemma FeedEntriesKept(before: Message.Ledger, first: Key, n: nat, tail: Key,
                        newKey: Key, record: Message.AccountRecord, ban: Option<Key>,
                        nameOf: Key -> string)
    requires Message.ReachesEnd(Message.Links(before), ZERO_KEY, first, n) && first != ZERO_KEY
    requires var c := Message.Chain(Message.Links(before), ZERO_KEY, first, n); tail == c[|c| - 1]
    requires tail in before && |before[tail].data| >= Program.TEXT_OFFSET && tail != newKey
    requires BanTarget(before, tail, newKey, ban)
    requires newKey !in Message.Chain(Message.Links(before), ZERO_KEY, first, n)
    requires ban.Some? ==> ban.value !in Message.Chain(Message.Links(before), ZERO_KEY, first, n)
    requires |record.data| >= Program.TEXT_OFFSET && Program.MessageLayout(record.data).nextMessage == ZERO_KEY
    ensures var c := Message.Chain(Message.Links(before), ZERO_KEY, first, n);
      var after := AfterPost(before, tail, newKey, record, ban);
      Message.Entries(after, c, nameOf) == Message.Entries(before, c, nameOf)
  {
    var c := Message.Chain(Message.Links(before), ZERO_KEY, first, n);
    var after := AfterPost(before, tail, newKey, record, ban);
    PostRelinksTail(before, tail, newKey, record, ban, nameOf);
    FeedUntouchedBeforeTail(before, first, n, tail, newKey, record, ban, nameOf);
    forall i | 0 <= i < |c|
      ensures Message.Entry(after, c[i], nameOf) == Message.Entry(before, c[i], nameOf)
    {
      if i == |c| - 1 {
        assert c[i] == tail;
      }
    }
    EntriesAgree(after, before, c, nameOf);
  }

  /** A successful post extends the feed by exactly the new message: if the
      walk from `first` ends at `tail`, the new account is not on the feed,
      and its `next_message` is zero (the account was created zero-filled and
      the program leaves that field alone), then after the post the walk from
      `first` visits one more address and collects the old entries followed
      by the new message's. The user account is only read by a post; the
      user to ban, if any, must be off the feed, since the ban rewrites a
      byte of whatever account it names (`BanRewritesPointer`). */
  lemma SuccessfulPostExtendsFeed(before: Message.Ledger, first: Key, n: nat, tail: Key,
                                  newKey: Key, record: Message.AccountRecord, ban: Option<Key>,
                                  nameOf: Key -> string)
    requires Message.ReachesEnd(Message.Links(before), ZERO_KEY, first, n) && first != ZERO_KEY
    requires var c := Message.Chain(Message.Links(before), ZERO_KEY, first, n); tail == c[|c| - 1]
    requires tail in before && |before[tail].data| >= Program.TEXT_OFFSET
    requires newKey != ZERO_KEY && newKey !in Message.Chain(Message.Links(before), ZERO_KEY, first, n)
    requires BanTarget(before, tail, newKey, ban)
    requires ban.Some? ==> ban.value !in Message.Chain(Message.Links(before), ZERO_KEY, first, n)
    requires |record.data| >= Program.TEXT_OFFSET && Program.MessageLayout(record.data).nextMessage == ZERO_KEY
    ensures var after := AfterPost(before, tail, newKey, record, ban);
      && Message.ReachesEnd(Message.Links(after), ZERO_KEY, first, n + 1)
      && Message.FeedFrom(after, first, n + 1, nameOf)
         == Message.FeedFrom(before, first, n, nameOf) + [Message.Entry(after, newKey, nameOf)]
  {
    var after := AfterPost(before, tail, newKey, record, ban);
    var next, next' := Message.Links(before), Message.Links(after);
    var c := Message.Chain(next, ZERO_KEY, first, n);
    PostRelinksTail(before, tail, newKey, record, ban, nameOf);
    FeedUntouchedBeforeTail(before, first, n, tail, newKey, record, ban, nameOf);
    Message.LinksAt(after, tail);
    Message.LinksAt(after, newKey);
    Message.AppendExtendsChain(next, next', ZERO_KEY, first, n, newKey);
    FeedEntriesKept(before, first, n, tail, newKey, record, ban, nameOf);
    assert Message.Entries(after, [newKey], nameOf) == [Message.Entry(after, newKey, nameOf)];
    EntriesAppend(after, c, [newKey], nameOf);
  }

  /** `Entries` distributes over concatenation. */
  lemma {:induction false} EntriesAppend(ledger: Message.Ledger, a: seq<Key>, b: seq<Key>, nameOf: Key -> string)
    ensures Message.Entries(ledger, a + b, nameOf) == Message.Entries(ledger, a, nameOf) + Message.Entries(ledger, b, nameOf)
  {
    if a == [] {
      assert a + b == b;
    } else {
      var e := [Message.Entry(ledger, a[0], nameOf)];
      assert (a + b)[1..] == a[1..] + b;
      EntriesAppend(ledger, a[1..], b, nameOf);
      assert e + (Message.Entries(ledger, a[1..], nameOf) + Message.Entries(ledger, b, nameOf))
          == (e + Message.Entries(ledger, a[1..], nameOf)) + Message.Entries(ledger, b, nameOf);
    }
  }
}
