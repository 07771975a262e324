/**
 The cache of the words of holding registers: what it means that it is true to the memory of
 the device, and that storing the words of a register that were read keeps it so.
 */
module ModbusCache {
  import opened Common
  import opened ModbusRead
  import opened Registers
  import opened WordCodec

  /** The byte order in which the registers at an address see its word. */
  type OrderOf = int -> ByteOrder

  /** Every cached word is the word in memory, as its registers see it. */
  ghost predicate CacheAgrees(cache: Cache, table: map<int, Word>, orderOf: OrderOf) {
    forall a | a in cache && a in table :: cache[a] == Seen(orderOf(a), table[a])
  }

  ghost predicate UsesOrder(c: RegisterConfig, orderOf: OrderOf) {
    forall a | c.address <= a < c.address + c.WordWidth() :: orderOf(a) == c.byteOrder
  }

  predicate HasWord(c: RegisterConfig, a: int) {
    c.address <= a < c.address + c.WordWidth()
  }

  ghost predicate AllCached(c: RegisterConfig, cache: Cache) {
    forall a | HasWord(c, a) :: a in cache
  }

  lemma {:induction false} StoredWords(cache: Cache, address: int, words: seq<Word>, a: int)
    ensures a in Stored(cache, address, words) <==> a in cache || address <= a < address + |words|
    ensures a in Stored(cache, address, words) ==>
      Stored(cache, address, words)[a] == if address <= a < address + |words| then words[a - address] else cache[a]
  {
    if words != [] {
      StoredWords(cache, address, words[..|words| - 1], a);
    }
  }

  /** Nothing leaves the cache, the words of the register are in it, and it stays true to the memory. */
  ghost predicate Follows(cache: Cache, newCache: Cache, c: RegisterConfig, table: map<int, Word>, orderOf: OrderOf) {
    && cache.Keys <= newCache.Keys
    && AllCached(c, newCache)
    && (CacheAgrees(cache, table, orderOf) && UsesOrder(c, orderOf) ==> CacheAgrees(newCache, table, orderOf))
  }

  lemma {:induction false} StoringMemory(cache: Cache, c: RegisterConfig, table: map<int, Word>, orderOf: OrderOf)
    requires Exists(table, c.address, c.WordWidth())
    ensures Follows(cache, Stored(cache, c.address, MemoryWords(table, c)), c, table, orderOf)
  {
    var words := MemoryWords(table, c);
    var after := Stored(cache, c.address, words);
    forall a ensures a in after <==> a in cache || HasWord(c, a) {
      StoredWords(cache, c.address, words, a);
    }
    forall a | a in cache.Keys ensures a in after.Keys {
      assert a in cache;
    }
    if CacheAgrees(cache, table, orderOf) && UsesOrder(c, orderOf) {
      forall a | a in after && a in table ensures after[a] == Seen(orderOf(a), table[a]) {
        StoredWords(cache, c.address, words, a);
        if HasWord(c, a) {
          assert words[a - c.address] == Seen(c.byteOrder, table[c.address + (a - c.address)]);
        }
      }
    }
  }

  lemma StoringAnswer(
      cache: Cache, c: RegisterConfig, start: int, count: nat, table: map<int, Word>, orderOf: OrderOf)
    requires Exists(table, start, count)
    requires start <= c.address && c.address + c.WordWidth() <= start + count
    ensures 2 * (c.address - start + c.WordWidth()) <= |WordBytes(table, start, count)|
    ensures Follows(
      cache, Stored(cache, c.address, WordsAt(WordBytes(table, start, count), c, c.address - start)), c, table, orderOf)
  {
    WordsAreMemory(table, start, count, c);
    StoringMemory(cache, c, table, orderOf);
  }
}
