/** The fixed table of double-negative phrases and their simpler replacements. */
module Phrases {
  import opened Strings

  datatype Phrase = Phrase(key: string, replacement: string)

  /** The `replacements` object, in its insertion order (the order `Object.entries` yields). */
  const Table: seq<Phrase> := [
    Phrase("not uncommon", "common"),
    Phrase("not insignificant", "significant"),
    Phrase("not unimportant", "important"),
    Phrase("not infrequent", "frequent"),
    Phrase("not unlikely", "likely"),
    Phrase("not unreasonable", "reasonable"),
    Phrase("not impossible", "possible"),
    Phrase("not unusual", "usual"),
    Phrase("not unnecessary", "necessary"),
    Phrase("not inconsiderable", "considerable"),
    Phrase("unclear", "clear"),
    Phrase("don't disagree", "agree"),
    Phrase("don't not", "do"),
    Phrase("not wrong", "right"),
    Phrase("not unsalvagable", "salvageable"),
    Phrase("won't not", "will"),
    Phrase("not infrequently", "frequently"),
    Phrase("wouldn't disagree", "agree"),
    Phrase("did not go unnoticed", "people noticed")
  ]

  /** Every key is non-empty, so a global search for it always moves forward. */
  predicate ValidTable(table: seq<Phrase>)
  {
    forall t :: 0 <= t < |table| ==> |table[t].key| > 0
  }

  /** A key is a literal: only lower-case ASCII letters, spaces and apostrophes. */
  predicate LiteralKey(key: string)
  {
    |key| > 0 && forall i :: 0 <= i < |key| ==> ('a' <= key[i] <= 'z') || key[i] == ' ' || key[i] == '\''
  }

  /** The keys of the table entries in [lo, hi) are literals, given as their slice. */
  lemma SliceKeysLiteral(lo: nat, hi: nat)
    requires lo <= hi <= |Table|
    requires forall p :: p in Table[lo..hi] ==> LiteralKey(p.key)
    ensures forall t :: lo <= t < hi ==> LiteralKey(Table[t].key)
  {
    forall t | lo <= t < hi
      ensures LiteralKey(Table[t].key)
    {
      assert Table[t] == Table[lo..hi][t - lo];
    }
  }

  lemma KeysLiteral0To4()
    ensures forall t :: 0 <= t < 4 ==> LiteralKey(Table[t].key)
  {
    forall p | p in Table[0..4]
      ensures LiteralKey(p.key)
    {
    }
    SliceKeysLiteral(0, 4);
  }

  lemma KeysLiteral4To8()
    ensures forall t :: 4 <= t < 8 ==> LiteralKey(Table[t].key)
  {
    forall p | p in Table[4..8]
      ensures LiteralKey(p.key)
    {
    }
    SliceKeysLiteral(4, 8);
  }

  lemma KeysLiteral8To12()
    ensures forall t :: 8 <= t < 12 ==> LiteralKey(Table[t].key)
  {
    forall p | p in Table[8..12]
      ensures LiteralKey(p.key)
    {
    }
    SliceKeysLiteral(8, 12);
  }

  lemma KeysLiteral12To16()
    ensures forall t :: 12 <= t < 16 ==> LiteralKey(Table[t].key)
  {
    forall p | p in Table[12..16]
      ensures LiteralKey(p.key)
    {
    }
    SliceKeysLiteral(12, 16);
  }

  lemma KeysLiteral16To19()
    ensures forall t :: 16 <= t < 19 ==> LiteralKey(Table[t].key)
  {
    forall p | p in Table[16..19]
      ensures LiteralKey(p.key)
    {
    }
    SliceKeysLiteral(16, 19);
  }

  /** Every key is a non-empty literal with no regular-expression metacharacter. */
  lemma KeysAreLiterals()
    ensures forall t :: 0 <= t < |Table| ==> LiteralKey(Table[t].key)
  {
    KeysLiteral0To4();
    KeysLiteral4To8();
    KeysLiteral8To12();
    KeysLiteral12To16();
    KeysLiteral16To19();
  }

  /**
   * Every key is already in lower case and every replacement is non-empty; so
   * compiling a key with the `gi` flags gives a plain case-insensitive
   * substring search for that key.
   */
  lemma TableWellFormed()
    ensures ValidTable(Table)
    ensures forall t :: 0 <= t < |Table| ==> Lower(Table[t].key) == Table[t].key
    ensures forall t :: 0 <= t < |Table| ==> |Table[t].replacement| > 0
  {
    KeysAreLiterals();
    forall t | 0 <= t < |Table|
      ensures Lower(Table[t].key) == Table[t].key
    {
      var k := Table[t].key;
      assert forall c :: c in k ==> !('A' <= c <= 'Z');
      LowerIdentity(k);
    }
    forall p | p in Table
      ensures |p.replacement| > 0
    {
    }
    forall t | 0 <= t < |Table|
      ensures |Table[t].replacement| > 0
    {
      assert Table[t] in Table;
    }
  }
}
