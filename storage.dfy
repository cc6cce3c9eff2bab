/**
 * The browser history of recently opened font files: one `localStorage` slot holding a
 * most-recent-first list of at most five entries, keyed by the hex SHA-256 digest of the
 * file's bytes.  SHA-256, the FileReader data URL and `Date.now()` are parameters.
 */
module Storage {
  import opened Wrappers
  import opened Sequences
  import opened Numerals

  /** Files larger than this many bytes are never written to the history. */
  const MaxSizeBytes: nat := 2 * 1024 * 1024

  /** The length the history list is cut to after every save. */
  const HistoryLimit: nat := 5

  /** One remembered file; `fileData` is the file as a base64 data URL. */
  datatype HistoryItem = HistoryItem(id: string, fileName: string, timestamp: int, fileData: string)

  /** A dropped file: its name and its bytes (`file.size` is the number of bytes). */
  datatype File = File(name: string, bytes: seq<Byte>)

  /**
   * What the history's storage key holds: nothing, the empty string, text that is not
   * JSON, or a JSON array of entries.
   */
  datatype Slot = Absent | Blank | Unparsable | Items(items: seq<HistoryItem>)

  /** How the promise returned by `saveToHistory` settles. */
  datatype SaveResult = Resolved | Rejected

  // ----- The id: the digest bytes as a hex string -----

  /** `Array.from(digest).map(b => b.toString(16).padStart(2, '0')).join('')`. */
  function DigestHex(digest: seq<Byte>): (id: string)
    ensures |id| == 2 * |digest|
  {
    if digest == [] then [] else ByteHex(digest[0]) + DigestHex(digest[1..])
  }

  /** Each digest byte occupies exactly the two characters at 2i and 2i+1. */
  lemma {:induction false} DigestHexAt(digest: seq<Byte>, i: nat)
    requires i < |digest|
    ensures DigestHex(digest)[2 * i..2 * i + 2] == ByteHex(digest[i])
    decreases |digest|
  {
    var head, rest := ByteHex(digest[0]), DigestHex(digest[1..]);
    var id := DigestHex(digest);
    assert id == head + rest;
    if i == 0 {
      assert id[..2] == head;
    } else {
      DigestHexAt(digest[1..], i - 1);
      assert digest[1..][i - 1] == digest[i];
      PairAfterHead(head, rest, 2 * (i - 1));
    }
  }

  lemma PairAfterHead(head: string, rest: string, j: nat)
    requires |head| == 2 && j + 2 <= |rest|
    ensures (head + rest)[j + 2..j + 4] == rest[j..j + 2]
  {
    var s := head + rest;
    assert s[j + 2] == rest[j] && s[j + 3] == rest[j + 1];
  }

  /** Every character of an id is a lower-case hex digit. */
  lemma DigestHexIsLowerHex(digest: seq<Byte>)
    ensures forall k :: 0 <= k < |DigestHex(digest)| ==> IsDigit(DigestHex(digest)[k], 16)
  {
    var id := DigestHex(digest);
    forall k | 0 <= k < |id|
      ensures IsDigit(id[k], 16)
    {
      var i := k / 2;
      DigestHexAt(digest, i);
      assert id[k] == id[2 * i..2 * i + 2][k - 2 * i];
    }
  }

  /** Reads an even-length hex string back into bytes, two characters per byte. */
  function HexToBytes(s: string): (bytes: seq<Byte>)
    decreases |s|
  {
    if |s| < 2 then [] else [DigitValue(s[0]) * 16 + DigitValue(s[1])] + HexToBytes(s[2..])
  }

  /** Decoding an id gives back the digest it was made from. */
  lemma {:induction false} HexToBytesOfDigestHex(digest: seq<Byte>)
    ensures HexToBytes(DigestHex(digest)) == digest
    decreases |digest|
  {
    if digest != [] {
      var head, rest := ByteHex(digest[0]), DigestHex(digest[1..]);
      var id := DigestHex(digest);
      assert id == head + rest;
      assert id[0] == head[0] && id[1] == head[1] && id[2..] == rest;
      HexToBytesOfDigestHex(digest[1..]);
    }
  }

  /** Different digests give different ids. */
  lemma DigestHexInjective(a: seq<Byte>, b: seq<Byte>)
    requires DigestHex(a) == DigestHex(b)
    ensures a == b
  {
    HexToBytesOfDigestHex(a);
    HexToBytesOfDigestHex(b);
  }

  // ----- The list update -----

  /** Some entry of `items` carries `id`. */
  predicate HasId(items: seq<HistoryItem>, id: string) {
    exists x :: x in items && x.id == id
  }

  /** No two entries of `items` carry the same id. */
  predicate UniqueIds(items: seq<HistoryItem>) {
    forall i, j :: 0 <= i < j < |items| ==> items[i].id != items[j].id
  }

  /** The shape the store keeps: at most five entries, no id twice. */
  predicate WellFormed(items: seq<HistoryItem>) {
    |items| <= HistoryLimit && UniqueIds(items)
  }

  /** `existing.filter(i => i.id !== id)`. */
  function Without(items: seq<HistoryItem>, id: string): (r: seq<HistoryItem>)
    ensures |r| <= |items|
    ensures forall k :: 0 <= k < |r| ==> r[k].id != id && r[k] in items
    ensures forall i :: 0 <= i < |items| && items[i].id != id ==> items[i] in r
  {
    Filter((x: HistoryItem) => x.id != id, items)
  }

  /** `[item, ...existing.filter(i => i.id !== item.id)].slice(0, 5)`. */
  function Upsert(existing: seq<HistoryItem>, item: HistoryItem): (r: seq<HistoryItem>)
    ensures 1 <= |r| <= HistoryLimit
    ensures r[0] == item
  {
    Take([item] + Without(existing, item.id), HistoryLimit)
  }

  /** After a save exactly one entry, the first, carries the new id. */
  lemma UpsertIdOnce(existing: seq<HistoryItem>, item: HistoryItem)
    ensures Upsert(existing, item)[0].id == item.id
    ensures forall k :: 1 <= k < |Upsert(existing, item)| ==> Upsert(existing, item)[k].id != item.id
  {
    var rest := Without(existing, item.id);
    var r := Upsert(existing, item);
    forall k | 1 <= k < |r|
      ensures r[k].id != item.id
    {
      assert r[k] == ([item] + rest)[k] == rest[k - 1];
    }
  }

  /**
   * The entries after the first are the earlier entries without the new id, in their
   * earlier order, cut to four.
   */
  lemma UpsertSurvivors(existing: seq<HistoryItem>, item: HistoryItem)
    ensures Upsert(existing, item)[1..] == Take(Without(existing, item.id), HistoryLimit - 1)
    ensures IsSubsequence(Upsert(existing, item)[1..], existing)
  {
    var rest := Without(existing, item.id);
    var r := Upsert(existing, item);
    assert r[1..] == Take(rest, HistoryLimit - 1);
    FilterIsSubsequence((x: HistoryItem) => x.id != item.id, existing);
    SubsequencePrefix(rest, existing, |r| - 1);
    assert rest[..|r| - 1] == r[1..];
  }

  /** Removing entries from a list with unique ids leaves unique ids. */
  lemma {:induction false} WithoutKeepsUnique(items: seq<HistoryItem>, id: string)
    requires UniqueIds(items)
    ensures UniqueIds(Without(items, id))
    decreases |items|
  {
    if items != [] {
      var rest := items[1..];
      assert UniqueIds(rest) by {
        forall i, j | 0 <= i < j < |rest| ensures rest[i].id != rest[j].id {
          assert rest[i] == items[i + 1] && rest[j] == items[j + 1];
        }
      }
      WithoutKeepsUnique(rest, id);
      if items[0].id != id {
        var w := Without(rest, id);
        forall j | 0 <= j < |w| ensures items[0].id != w[j].id {
          assert w[j] in rest;
          var k :| 0 <= k < |rest| && rest[k] == w[j];
          assert rest[k] == items[k + 1];
        }
        assert Without(items, id) == [items[0]] + w;
      }
    }
  }

  /** A save keeps the store well formed whenever the earlier ids were unique. */
  lemma UpsertWellFormed(existing: seq<HistoryItem>, item: HistoryItem)
    requires UniqueIds(existing)
    ensures WellFormed(Upsert(existing, item))
  {
    var r := Upsert(existing, item);
    var rest := Without(existing, item.id);
    WithoutKeepsUnique(existing, item.id);
    UpsertIdOnce(existing, item);
    forall i, j | 0 <= i < j < |r| ensures r[i].id != r[j].id {
      if i > 0 {
        assert r[i] == rest[i - 1] && r[j] == rest[j - 1];
      }
    }
  }

  /** Saving a new id puts it in front of the earlier list, dropping the oldest past five. */
  lemma UpsertFreshId(existing: seq<HistoryItem>, item: HistoryItem)
    requires !HasId(existing, item.id)
    ensures Upsert(existing, item) == Take([item] + existing, HistoryLimit)
    ensures |existing| < HistoryLimit ==> |Upsert(existing, item)| == |existing| + 1
  {
    FilterKeepsAll((x: HistoryItem) => x.id != item.id, existing);
  }

  /**
   * Saving an id that the (unique-id) list holds at position k moves that entry to the
   * front with its new name, time stamp and data, and leaves the others in order.
   */
  lemma UpsertPresentId(existing: seq<HistoryItem>, item: HistoryItem, k: nat)
    requires UniqueIds(existing) && k < |existing| && existing[k].id == item.id
    ensures Upsert(existing, item) == Take([item] + existing[..k] + existing[k + 1..], HistoryLimit)
  {
    WithoutPresentId(existing, item.id, k);
    assert [item] + existing[..k] + existing[k + 1..] == [item] + (existing[..k] + existing[k + 1..]);
  }

  /** In a list with unique ids, removing the id held at position k removes that entry only. */
  lemma WithoutPresentId(items: seq<HistoryItem>, id: string, k: nat)
    requires UniqueIds(items) && k < |items| && items[k].id == id
    ensures Without(items, id) == items[..k] + items[k + 1..]
  {
    var before, after := items[..k], items[k + 1..];
    assert items == before + ([items[k]] + after);
    WithoutAppend(before, [items[k]] + after, id);
    WithoutAppend([items[k]], after, id);
    assert Without([items[k]], id) == [];
    forall i | 0 <= i < |before| ensures before[i].id != id {
      assert before[i] == items[i];
    }
    forall i | 0 <= i < |after| ensures after[i].id != id {
      assert after[i] == items[k + 1 + i];
    }
    WithoutAbsentId(before, id);
    WithoutAbsentId(after, id);
  }

  lemma WithoutAppend(a: seq<HistoryItem>, b: seq<HistoryItem>, id: string)
    ensures Without(a + b, id) == Without(a, id) + Without(b, id)
  {
    FilterAppend((x: HistoryItem) => x.id != id, a, b);
  }

  lemma WithoutAbsentId(items: seq<HistoryItem>, id: string)
    requires forall i :: 0 <= i < |items| ==> items[i].id != id
    ensures Without(items, id) == items
  {
    FilterKeepsAll((x: HistoryItem) => x.id != id, items);
  }

  /** Re-saving an id already present does not change the length of a well-formed list. */
  lemma UpsertPresentIdKeepsLength(existing: seq<HistoryItem>, item: HistoryItem)
    requires WellFormed(existing) && HasId(existing, item.id)
    ensures |Upsert(existing, item)| == |existing|
  {
    var x :| x in existing && x.id == item.id;
    var k :| 0 <= k < |existing| && existing[k] == x;
    UpsertPresentId(existing, item, k);
  }

  /**
   * Scenario: save A, then B, then A again, then C, D, E, F,
   * all with different contents except the two saves of A.  B is the entry evicted.
   */
  lemma HistoryScenario(a: HistoryItem, b: HistoryItem, a2: HistoryItem,
                        c: HistoryItem, d: HistoryItem, e: HistoryItem, f: HistoryItem)
    requires a2.id == a.id
    requires a.id != b.id && a.id != c.id && a.id != d.id && a.id != e.id && a.id != f.id
    requires b.id != c.id && b.id != d.id && b.id != e.id && b.id != f.id
    requires c.id != d.id && c.id != e.id && c.id != f.id
    requires d.id != e.id && d.id != f.id && e.id != f.id
    ensures Upsert([], a) == [a]
    ensures Upsert([a], b) == [b, a]
    ensures Upsert([b, a], a2) == [a2, b]
    ensures Upsert(Upsert(Upsert(Upsert([a2, b], c), d), e), f) == [f, e, d, c, a2]
  {
    ScenarioRefresh(a, b, a2);
    ScenarioEviction(a2, b, c, d, e, f);
  }

  lemma ScenarioRefresh(a: HistoryItem, b: HistoryItem, a2: HistoryItem)
    requires a2.id == a.id && a.id != b.id
    ensures Upsert([], a) == [a]
    ensures Upsert([a], b) == [b, a]
    ensures Upsert([b, a], a2) == [a2, b]
  {
    StepFresh([], a);
    StepFresh([a], b);
    assert UniqueIds([b, a]);
    UpsertPresentId([b, a], a2, 1);
    assert [a2] + [b, a][..1] + [b, a][2..] == [a2, b];
  }

  lemma ScenarioEviction(a: HistoryItem, b: HistoryItem,
                         c: HistoryItem, d: HistoryItem, e: HistoryItem, f: HistoryItem)
    requires a.id != c.id && a.id != d.id && a.id != e.id && a.id != f.id
    requires b.id != c.id && b.id != d.id && b.id != e.id && b.id != f.id
    requires c.id != d.id && c.id != e.id && c.id != f.id
    requires d.id != e.id && d.id != f.id && e.id != f.id
    ensures Upsert(Upsert(Upsert(Upsert([a, b], c), d), e), f) == [f, e, d, c, a]
  {
    ScenarioGrow(a, b, c, d);
    ScenarioFull(a, b, c, d, e, f);
  }

  lemma ScenarioGrow(a: HistoryItem, b: HistoryItem, c: HistoryItem, d: HistoryItem)
    requires a.id != c.id && a.id != d.id && b.id != c.id && b.id != d.id && c.id != d.id
    ensures Upsert(Upsert([a, b], c), d) == [d, c, a, b]
  {
    StepFresh([a, b], c);
    StepFresh([c, a, b], d);
  }

  lemma ScenarioFull(a: HistoryItem, b: HistoryItem,
                     c: HistoryItem, d: HistoryItem, e: HistoryItem, f: HistoryItem)
    requires a.id != e.id && a.id != f.id && b.id != e.id && b.id != f.id
    requires c.id != e.id && c.id != f.id && d.id != e.id && d.id != f.id && e.id != f.id
    ensures Upsert(Upsert([d, c, a, b], e), f) == [f, e, d, c, a]
  {
    StepFresh([d, c, a, b], e);
    EvictOldest([e, d, c, a, b], f);
    LiteralPrefix(f, e, d, c, a, b);
  }

  lemma LiteralPrefix(f: HistoryItem, e: HistoryItem, d: HistoryItem, c: HistoryItem,
                      a: HistoryItem, b: HistoryItem)
    ensures [f] + [e, d, c, a, b][..HistoryLimit - 1] == [f, e, d, c, a]
  {
  }

  /** Saving a sixth id into a full list of five other ids evicts the last, oldest entry. */
  lemma EvictOldest(existing: seq<HistoryItem>, item: HistoryItem)
    requires |existing| == HistoryLimit
    requires forall i :: 0 <= i < |existing| ==> existing[i].id != item.id
    ensures Upsert(existing, item) == [item] + existing[..HistoryLimit - 1]
  {
    StepFresh(existing, item);
    assert ([item] + existing)[..HistoryLimit] == [item] + existing[..HistoryLimit - 1];
  }

  lemma StepFresh(existing: seq<HistoryItem>, item: HistoryItem)
    requires forall i :: 0 <= i < |existing| ==> existing[i].id != item.id
    ensures Upsert(existing, item) == Take([item] + existing, HistoryLimit)
  {
    WithoutAbsentId(existing, item.id);
  }

  // ----- The store -----

  /** The `localStorage` slot of the history and the three operations on it. */
  class HistoryStore {
    var slot: Slot

    constructor (initial: Slot)
      ensures slot == initial
    {
      slot := initial;
    }

    /** `getHistory()`: the stored list; an absent, empty or unparsable slot reads as no history. */
    function GetHistory(): (r: seq<HistoryItem>)
      reads this
      ensures slot.Items? ==> r == slot.items
      ensures !slot.Items? ==> r == []
    {
      match slot
      case Items(items) => items
      case _ => []
    }

    /**
     * `saveToHistory(file)`.  `sha256` stands for `crypto.subtle.digest('SHA-256', ·)`,
     * `dataUrl` for the FileReader's result (None when the read fails), `now` for
     * `Date.now()`, and `writeAccepted` for whether `localStorage.setItem` succeeds.
     */
    method SaveToHistory(file: File, sha256: seq<Byte> -> seq<Byte>, dataUrl: Option<string>,
                         now: int, writeAccepted: bool)
      returns (result: SaveResult)
      modifies this
      ensures |file.bytes| > MaxSizeBytes ==> result == Resolved && slot == old(slot)
      ensures |file.bytes| <= MaxSizeBytes && (dataUrl.None? || !writeAccepted) ==>
                result == Rejected && slot == old(slot)
      ensures |file.bytes| <= MaxSizeBytes && dataUrl.Some? && writeAccepted ==>
                result == Resolved &&
                slot == Items(Upsert(old(GetHistory()),
                                     HistoryItem(DigestHex(sha256(file.bytes)), file.name, now, dataUrl.value)))
      ensures old(UniqueIds(GetHistory())) ==> UniqueIds(GetHistory())
    {
      if |file.bytes| > MaxSizeBytes {
        return Resolved;
      }
      var hashHex := DigestHex(sha256(file.bytes));
      if dataUrl.None? {
        return Rejected;
      }
      var item := HistoryItem(hashHex, file.name, now, dataUrl.value);
      var existing := GetHistory();
      var newHistory := Upsert(existing, item);
      if !writeAccepted {
        return Rejected;
      }
      if UniqueIds(existing) {
        UpsertWellFormed(existing, item);
      }
      slot := Items(newHistory);
      result := Resolved;
    }

    /** `clearHistory()`: removes the slot, so the history reads as empty. */
    method ClearHistory()
      modifies this
      ensures slot == Absent && GetHistory() == []
    {
      slot := Absent;
    }
  }

  /** Clearing is idempotent: clearing an already cleared store leaves its slot as it was. */
  method ClearAgain(store: HistoryStore)
    requires store.slot == Absent
    modifies store
    ensures store.slot == old(store.slot)
  {
    store.ClearHistory();
  }
}
