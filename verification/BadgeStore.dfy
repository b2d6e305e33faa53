/** The list of paired badges kept in non-volatile storage (components/badge-persistence/badge_store.cpp). */
module BadgeStore {
  const ID_SIZE: nat := 6
  const COUNT_KEY: string := "paired_count"
  const COUNT_LIMIT: nat := 65536   // paired_count is a uint16_t

  /** An entry of the flash namespace: a badge id as a blob of `length` bytes, or a 16-bit counter. */
  datatype Value = Blob(id: nat, length: nat) | U16(n: nat)
  type Nvs = map<string, Value>

  // ---------------------------------------------------------------- keys

  function DecimalDigit(d: nat): char
    requires d < 10
  {
    '0' + d as char
  }

  function Decimal(n: nat): (s: string)
    ensures |s| > 0
  {
    if n < 10 then [DecimalDigit(n)] else Decimal(n / 10) + [DecimalDigit(n % 10)]
  }

  function Key(index: nat): string { "b-" + Decimal(index) }

  lemma {:induction false} DecimalInjective(m: nat, n: nat)
    requires Decimal(m) == Decimal(n)
    ensures m == n
  {
    var s, t := Decimal(m), Decimal(n);
    assert s[|s| - 1] == DecimalDigit(m % 10) && t[|t| - 1] == DecimalDigit(n % 10);
    assert m % 10 == n % 10;
    if m >= 10 || n >= 10 {
      assert m >= 10 ==> s[..|s| - 1] == Decimal(m / 10);
      assert n >= 10 ==> t[..|t| - 1] == Decimal(n / 10);
      assert m < 10 ==> |s| == 1;
      assert n < 10 ==> |t| == 1;
      DecimalInjective(m / 10, n / 10);
    }
  }

  predicate IsDecimal(s: string) {
    forall i | 0 <= i < |s| :: '0' <= s[i] <= '9'
  }

  /** The number that decimal digits spell. */
  function Spelled(s: string): nat
    requires IsDecimal(s)
  {
    if s == [] then 0 else 10 * Spelled(s[..|s| - 1]) + (s[|s| - 1] - '0') as nat
  }

  lemma {:induction false} DecimalSpells(n: nat)
    ensures IsDecimal(Decimal(n)) && Spelled(Decimal(n)) == n
    ensures n > 0 ==> Decimal(n)[0] != '0'
    ensures n < 10 ==> |Decimal(n)| == 1
  {
    if n >= 10 {
      DecimalSpells(n / 10);
      assert Decimal(n)[..|Decimal(n)| - 1] == Decimal(n / 10);
    }
  }

  /** A key is "b-" and the sequence number in decimal, without leading zeros. */
  lemma KeyIs(index: nat)
    ensures var key := Key(index);
      && |key| >= 3 && key[..2] == "b-" && IsDecimal(key[2..]) && Spelled(key[2..]) == index
      && (key[2] == '0' ==> index == 0 && key == "b-0")
  {
    DecimalSpells(index);
    assert Key(index)[2..] == Decimal(index);
  }

  /** No two sequence numbers share a key and none collides with the counter's. */
  lemma KeyInjective(m: nat, n: nat)
    ensures Key(m) == Key(n) ==> m == n
    ensures Key(m) != COUNT_KEY
  {
    assert Key(m)[0] == 'b' && COUNT_KEY[0] == 'p';
    if Key(m) == Key(n) {
      assert Decimal(m) == Key(m)[2..] && Decimal(n) == Key(n)[2..];
      DecimalInjective(m, n);
    }
  }

  // ---------------------------------------------------------------- contents

  function CountOf(nvs: Nvs): nat {
    if COUNT_KEY in nvs && nvs[COUNT_KEY].U16? then nvs[COUNT_KEY].n else 0
  }

  /** Flash as the store leaves it: a counter in range and a full-size id under each key below it. */
  ghost predicate WellFormed(nvs: Nvs) {
    && (COUNT_KEY in nvs ==> nvs[COUNT_KEY].U16? && nvs[COUNT_KEY].n < COUNT_LIMIT)
    && forall i: nat | i < CountOf(nvs) ::
         Key(i) in nvs && nvs[Key(i)].Blob? && nvs[Key(i)].length == ID_SIZE
  }

  /** The ids the store lists, in sequence order. */
  ghost function Stored(nvs: Nvs): seq<nat>
    requires WellFormed(nvs)
  {
    seq(CountOf(nvs), i requires 0 <= i < CountOf(nvs) => nvs[Key(i)].id)
  }

  /** The first of the two writes of SaveId ... */
  function WithBlob(nvs: Nvs, id: nat): Nvs { nvs[Key(CountOf(nvs)) := Blob(id, ID_SIZE)] }

  /** ... and the second. */
  function WithCount(nvs: Nvs, count: nat): Nvs { nvs[COUNT_KEY := U16((count + 1) % COUNT_LIMIT)] }

  /** What the list becomes: one id longer, until the 16-bit counter wraps and the list reads empty. */
  function Saved(stored: seq<nat>, id: nat): seq<nat> {
    if |stored| + 1 < COUNT_LIMIT then stored + [id] else []
  }

  /** Power lost between the writes: the list reads as before, no older blob is touched, and a retry is unaffected. */
  lemma CrashBetweenWrites(nvs: Nvs, id: nat)
    requires WellFormed(nvs)
    ensures WellFormed(WithBlob(nvs, id)) && Stored(WithBlob(nvs, id)) == Stored(nvs)
    ensures forall k | k in nvs && k != Key(CountOf(nvs)) :: k in WithBlob(nvs, id) && WithBlob(nvs, id)[k] == nvs[k]
  {
    var n := CountOf(nvs);
    KeyInjective(n, n);
    assert CountOf(WithBlob(nvs, id)) == n;
    forall i: nat | i < n
      ensures Key(i) in WithBlob(nvs, id) && WithBlob(nvs, id)[Key(i)] == nvs[Key(i)]
    {
      KeyInjective(i, n);
    }
  }

  lemma SaveAppends(nvs: Nvs, id: nat)
    requires WellFormed(nvs)
    ensures var after := WithCount(WithBlob(nvs, id), CountOf(nvs));
      && WellFormed(after)
      && Stored(after) == Saved(Stored(nvs), id)
      && after == nvs[Key(|Stored(nvs)|) := Blob(id, 6)]["paired_count" := U16((|Stored(nvs)| + 1) % 65536)]
      && (forall i: nat | i < CountOf(nvs) :: Key(i) in after && after[Key(i)] == nvs[Key(i)])
  {
    var n := CountOf(nvs);
    var after := WithCount(WithBlob(nvs, id), n);
    CrashBetweenWrites(nvs, id);
    assert n < COUNT_LIMIT;
    assert CountOf(after) == (n + 1) % COUNT_LIMIT;
    forall i: nat | i <= n
      ensures Key(i) in after && after[Key(i)] == if i == n then Blob(id, ID_SIZE) else nvs[Key(i)]
    {
      KeyInjective(i, n);
    }
    assert Stored(after) == Saved(Stored(nvs), id);
  }

  class Store {
    var nvs: Nvs
    ghost var writes: seq<(string, Value)>   // every entry written, oldest first

    ghost predicate Valid()
      reads this
    {
      WellFormed(nvs)
    }

    ghost function Contents(): seq<nat>
      requires Valid()
      reads this
    {
      Stored(nvs)
    }

    constructor ()
      ensures Valid() && Contents() == [] && writes == []
    {
      nvs, writes := map[], [];
    }

    method Count() returns (count: nat)
      requires Valid()
      ensures count == |Contents()| < COUNT_LIMIT
    {
      count := CountOf(nvs);
    }

    method Write(key: string, value: Value)
      modifies this
      ensures nvs == old(nvs)[key := value] && writes == old(writes) + [(key, value)]
    {
      nvs, writes := nvs[key := value], writes + [(key, value)];
    }

    /** The blob first, then the counter. */
    method SaveId(id: nat)
      requires Valid()
      modifies this
      ensures Valid() && Contents() == Saved(old(Contents()), id)
      ensures forall i: nat | i < |old(Contents())| :: Key(i) in nvs && nvs[Key(i)] == old(nvs)[Key(i)]
      ensures var n := |old(Contents())|;
        writes == old(writes) + [(Key(n), Blob(id, 6)), ("paired_count", U16((n + 1) % 65536))]
    {
      SaveAppends(nvs, id);
      var sequenceNumber := Count();
      Write(Key(sequenceNumber), Blob(id, ID_SIZE));
      Write(COUNT_KEY, U16((sequenceNumber + 1) % COUNT_LIMIT));
    }

    method HasId(id: nat) returns (found: bool)
      requires Valid()
      ensures found <==> id in Contents()
    {
      var count := Count();
      for i := 0 to count
        invariant forall j | 0 <= j < i :: Contents()[j] != id
      {
        if Key(i) in nvs && nvs[Key(i)].Blob? && nvs[Key(i)].length == ID_SIZE && nvs[Key(i)].id == id {
          assert Contents()[i] == id;
          return true;
        }
      }
      return false;
    }
  }
}
