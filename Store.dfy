/**
 * The single-slot "message of the day" store: a dictionary that is only ever
 * used with the one key "motd".  Reading an absent key yields a fixed fallback
 * text; writing overwrites the entry in place and echoes what was stored.
 */
module Store {

  /**
   * A .NET `string` reference: either `null` or a sequence of characters.
   * The store performs no validation, so `null` is a value it can hold.
   */
  datatype NullableString = Null | Str(chars: string)

  /** The only key the store ever touches. */
  const MotdKey: string := "motd"

  /** The text returned while no message has been stored. */
  const NoMotd: string := "No motd entered."

  type Dictionary = map<string, NullableString>

  /** The store's invariant: no key other than "motd" is ever present. */
  predicate SingleKey(d: Dictionary)
  {
    d.Keys <= {MotdKey}
  }

  /** What a read of the store answers in state `d`. */
  function Lookup(d: Dictionary): NullableString
  {
    if MotdKey in d then d[MotdKey] else Str(NoMotd)
  }

  /** The state after a write of `input` in state `d`. */
  function Update(d: Dictionary, input: NullableString): Dictionary
  {
    d[MotdKey := input]
  }

  /** A fresh store answers exactly the fallback text. */
  lemma EmptyAnswersFallback()
    ensures Lookup(map[]) == Str(NoMotd)
  {
  }

  /**
   * A stored message equal to the fallback text cannot be told apart from an
   * empty store by reading: the two states differ, yet a read answers the same.
   */
  lemma StoredFallbackIndistinguishable()
    ensures map[] != map[MotdKey := Str(NoMotd)]
    ensures Lookup(map[]) == Lookup(map[MotdKey := Str(NoMotd)])
  {
    assert MotdKey in map[MotdKey := Str(NoMotd)];
  }

  /** Read after write: a read right after writing `input` answers `input`, for every input. */
  lemma ReadAfterWrite(d: Dictionary, input: NullableString)
    ensures MotdKey in Update(d, input)
    ensures Lookup(Update(d, input)) == input
  {
  }

  /** Last write wins: a second write erases every trace of the first. */
  lemma LastWriteWins(d: Dictionary, a: NullableString, b: NullableString)
    ensures Update(Update(d, a), b) == Update(d, b)
    ensures Lookup(Update(Update(d, a), b)) == b
  {
  }

  /** Writing the same value twice leaves the same state as writing it once. */
  lemma WriteIdempotent(d: Dictionary, input: NullableString)
    ensures Update(Update(d, input), input) == Update(d, input)
  {
  }

  /**
   * A write keeps the single-key invariant, leaves exactly one entry, and
   * changes nothing under any key other than "motd".
   */
  lemma UpdateKeepsSingleKey(d: Dictionary, input: NullableString)
    requires SingleKey(d)
    ensures SingleKey(Update(d, input))
    ensures Update(d, input) == map[MotdKey := input]
    ensures |Update(d, input)| == 1
    ensures forall k :: k != MotdKey ==> (k in Update(d, input) <==> k in d)
  {
  }

  /** The repository object: its dictionary is mutated in place by writes. */
  class MessageRepository {
    var dictionary: Dictionary

    ghost predicate Valid()
      reads this
    {
      SingleKey(dictionary)
    }

    /** A new repository starts with an empty dictionary. */
    constructor ()
      ensures Valid()
      ensures dictionary == map[]
    {
      dictionary := map[];
    }

    /**
     * Answers the entry under "motd" when the key is present (which may be
     * `null`), else the fallback text.  It changes no state: it has no
     * `modifies` clause.
     */
    method GetMessage() returns (r: NullableString)
      ensures MotdKey in dictionary ==> r == dictionary[MotdKey]
      ensures MotdKey !in dictionary ==> r == Str(NoMotd)
      ensures r == Lookup(dictionary)
    {
      if MotdKey in dictionary {
        r := dictionary[MotdKey];
      } else {
        r := Str(NoMotd);
      }
    }

    /**
     * Stores `input` under "motd", replacing any earlier entry, and answers
     * the entry read back after the write.
     */
    method SetMessage(input: NullableString) returns (r: NullableString)
      requires Valid()
      modifies this
      ensures Valid()
      ensures dictionary == Update(old(dictionary), input)
      ensures dictionary == map[MotdKey := input]
      ensures r == input
    {
      dictionary := dictionary[MotdKey := input];
      r := dictionary[MotdKey];
    }
  }

  /**
   * A client of the repository: a get/put session on a fresh repository,
   * followed only through the methods' contracts.
   */
  method Scenario()
  {
    var repo := new MessageRepository();
    var m := repo.GetMessage();
    assert m == Str("No motd entered.");
    m := repo.SetMessage(Str("hello"));
    assert m == Str("hello");
    m := repo.GetMessage();
    assert m == Str("hello");
    m := repo.SetMessage(Str(""));
    assert m == Str("");
    m := repo.GetMessage();
    assert m == Str("");
    m := repo.SetMessage(Null);
    assert m == Null;
    m := repo.GetMessage();
    assert m == Null;
  }
}
