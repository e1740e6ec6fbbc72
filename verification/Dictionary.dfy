/** The chained hash table of dict.c: it refines a finite map. */
module Dictionary {
  import opened Bytes
  import opened Decimal

  const INITIAL_SIZE := 4
  // the first index that a C int cannot hold
  const MAX_BUCKETS := 0x8000_0000
  const LONG_MAX := 0x7fff_ffff_ffff_ffff

  type u32 = n: nat | n < 0x1_0000_0000

  datatype Entry<K, V> = Entry(key: K, val: V)

  // ---------- sizes and masks ----------

  predicate IsPowerOfTwo(n: nat) {
    n == 1 || (n > 1 && n % 2 == 0 && IsPowerOfTwo(n / 2))
  }

  /** Bitwise conjunction of two unsigned numbers. */
  function And(a: nat, b: nat): nat {
    if a == 0 || b == 0 then 0 else 2 * And(a / 2, b / 2) + (if a % 2 == 1 && b % 2 == 1 then 1 else 0)
  }

  lemma {:induction false} AndBelow(a: nat, b: nat)
    ensures And(a, b) <= b && And(a, b) <= a
  {
    if a != 0 && b != 0 {
      AndBelow(a / 2, b / 2);
    }
  }

  /** The bucket of a key with hash `h` in a table of `size` buckets: h & sizemask. */
  function Bucket(h: nat, size: nat): (i: nat)
    requires size > 0
    ensures i < size
  {
    AndBelow(h, size - 1);
    And(h, size - 1)
  }

  /** In a table whose size is a power of two that is the remainder, so that every bucket can be hit. */
  lemma {:induction false} BucketIsRemainder(h: nat, size: nat)
    requires IsPowerOfTwo(size)
    ensures Bucket(h, size) == h % size
    decreases size
  {
    if size > 1 {
      if h == 0 {
        DivMod(0, size, 0, 0);
      } else {
        BucketIsRemainder(h / 2, size / 2);
        HalvedRemainder(h, size / 2);
        assert (size - 1) / 2 == size / 2 - 1 && (size - 1) % 2 == 1;
        if size == 2 {
          assert And(h / 2, 0) == 0;
        }
      }
    }
  }

  lemma HalvedRemainder(h: nat, k: nat)
    requires k > 0
    ensures h % (2 * k) == 2 * (h / 2 % k) + h % 2
  {
    var q, r := h / 2 / k, h / 2 % k;
    assert h / 2 == k * q + r;
    assert h == 2 * k * q + (2 * r + h % 2) by {
      assert 2 * (k * q) == 2 * k * q;
    }
    DivMod(h, 2 * k, q, 2 * r + h % 2);
  }

  /** _dictNextPower: the first power of two from 4 on that is not below `size`, or LONG_MAX for a size beyond it; the
      doubling in an unsigned 64-bit register does not wrap. */
  method NextPower(size: nat) returns (i: nat)
    ensures size >= LONG_MAX ==> i == LONG_MAX
    ensures size < LONG_MAX ==> i >= size && i >= INITIAL_SIZE && IsPowerOfTwo(i) && (i > INITIAL_SIZE ==> i / 2 < size)
  {
    i := INITIAL_SIZE;
    if size >= LONG_MAX {
      return LONG_MAX;
    }
    assert IsPowerOfTwo(4) by { assert IsPowerOfTwo(2); }
    while true
      invariant i >= INITIAL_SIZE && IsPowerOfTwo(i) && (i > INITIAL_SIZE ==> i / 2 < size)
      decreases size - i
    {
      if i >= size {
        return;
      }
      i := Wrap64(i * 2);
    }
  }

  lemma {:induction false} PowersApart(a: nat, b: nat)
    requires IsPowerOfTwo(a) && IsPowerOfTwo(b) && a <= b < 2 * a
    ensures a == b
    decreases a
  {
    if a > 1 {
      PowersApart(a / 2, b / 2);
    }
  }

  /** A table size that an int cannot hold is read as the smallest int or as zero. */
  lemma {:induction false} LargeSizeSigned(n: nat)
    requires IsPowerOfTwo(n) && n >= MAX_BUCKETS
    ensures n % 0x1_0000_0000 == 0 || n == MAX_BUCKETS
    ensures Signed32(n) <= 0
  {
    if n > MAX_BUCKETS {
      if n / 2 < MAX_BUCKETS {
        PowerMax();
        PowersApart(MAX_BUCKETS, n);
      } else {
        LargeSizeSigned(n / 2);
      }
    }
  }

  lemma BucketSigned(hash: u32, size: nat)
    requires size > 0
    ensures var i, r := Bucket(hash, size), Signed32(Bucket(hash, size));
            && (r == i <==> i < MAX_BUCKETS) && (r < 0 <==> i >= MAX_BUCKETS) && (r == -1 <==> i == 0xFFFF_FFFF)
  {
    AndBelow(hash, size - 1);
  }

  lemma PowerMax()
    ensures IsPowerOfTwo(MAX_BUCKETS)
  {
    PowerTimes16(1);
    PowerTimes16(0x10);
    PowerTimes16(0x100);
    PowerTimes16(0x1000);
    PowerTimes16(0x1_0000);
    PowerTimes16(0x10_0000);
    PowerTimes16(0x100_0000);
    PowerTwice(0x1000_0000);
    PowerTwice(0x2000_0000);
    PowerTwice(0x4000_0000);
  }

  lemma PowerTimes16(n: nat)
    requires IsPowerOfTwo(n)
    ensures IsPowerOfTwo(16 * n)
  {
    PowerTwice(n);
    PowerTwice(2 * n);
    PowerTwice(4 * n);
    PowerTwice(8 * n);
  }

  lemma PowerTwice(n: nat)
    requires IsPowerOfTwo(n)
    ensures IsPowerOfTwo(2 * n)
  {
    assert 2 * n % 2 == 0 && 2 * n / 2 == n;
  }

  // ---------- chains ----------

  predicate HasKey<K(==), V>(chain: seq<Entry<K, V>>, k: K) {
    exists j :: 0 <= j < |chain| && chain[j].key == k
  }

  ghost predicate DistinctKeys<K, V>(chain: seq<Entry<K, V>>) {
    forall i, j :: 0 <= i < j < |chain| ==> chain[i].key != chain[j].key
  }

  function Total<K, V>(t: seq<seq<Entry<K, V>>>): nat {
    if t == [] then 0 else |t[0]| + Total(t[1..])
  }

  lemma {:induction false} TotalUpdate<K, V>(t: seq<seq<Entry<K, V>>>, i: nat, chain: seq<Entry<K, V>>)
    requires i < |t|
    ensures Total(t[i := chain]) == Total(t) - |t[i]| + |chain|
  {
    if i == 0 {
      assert t[0 := chain][1..] == t[1..];
    } else {
      TotalUpdate(t[1..], i - 1, chain);
      assert t[i := chain][1..] == t[1..][i - 1 := chain];
    }
  }

  lemma {:induction false} TotalZero<K, V>(t: seq<seq<Entry<K, V>>>)
    ensures Total(t) == 0 <==> forall i :: 0 <= i < |t| ==> t[i] == []
  {
    if t != [] {
      TotalZero(t[1..]);
      assert (forall i :: 0 <= i < |t| ==> t[i] == [])
             <==> t[0] == [] && forall i :: 0 <= i < |t| - 1 ==> t[1..][i] == [] by {
        if t[0] == [] && forall i :: 0 <= i < |t| - 1 ==> t[1..][i] == [] {
          forall i | 0 <= i < |t| ensures t[i] == [] {
            if i > 0 { assert t[1..][i - 1] == []; }
          }
        }
      }
    }
  }

  lemma {:induction false} TotalEmpty<K, V>(t: seq<seq<Entry<K, V>>>)
    requires forall i :: 0 <= i < |t| ==> t[i] == []
    ensures Total(t) == 0
  {
    TotalZero(t);
  }

  /** The table holds exactly the bindings of `m`, each once and in the bucket `idx` gives it. */
  ghost predicate Represents<K(!new), V>(t: seq<seq<Entry<K, V>>>, m: map<K, V>, idx: K -> nat) {
    && (forall i, j :: 0 <= i < |t| && 0 <= j < |t[i]| ==> Belongs(t[i][j], i, m, idx))
    && (forall i :: 0 <= i < |t| ==> DistinctKeys(t[i]))
    && (forall k :: k in m ==> idx(k) < |t| && HasKey(t[idx(k)], k))
  }

  ghost predicate Belongs<K(!new), V>(e: Entry<K, V>, i: nat, m: map<K, V>, idx: K -> nat) {
    e.key in m && m[e.key] == e.val && idx(e.key) == i
  }

  /** A new binding goes to the front of its bucket. */
  lemma Prepend<K(!new), V>(t: seq<seq<Entry<K, V>>>, m: map<K, V>, idx: K -> nat, k: K, v: V)
    requires Represents(t, m, idx) && k !in m && idx(k) < |t|
    ensures Represents(t[idx(k) := [Entry(k, v)] + t[idx(k)]], m[k := v], idx)
  {
    var h := idx(k);
    var chain := [Entry(k, v)] + t[h];
    var t' := t[h := chain];
    forall i, j | 0 <= i < |t'| && 0 <= j < |t'[i]| ensures Belongs(t'[i][j], i, m[k := v], idx) {
      if i == h && j > 0 {
        assert t'[i][j] == t[i][j - 1];
        assert Belongs(t[i][j - 1], i, m, idx);
      } else if i != h {
        assert Belongs(t[i][j], i, m, idx);
      }
    }
    forall i, j | 0 <= i < j < |chain| ensures chain[i].key != chain[j].key {
      assert Belongs(t[h][j - 1], h, m, idx);
    }
    forall x | x in m[k := v] ensures idx(x) < |t| && HasKey(t'[idx(x)], x) {
      if x == k {
        assert t'[h][0].key == k;
      } else {
        var j :| 0 <= j < |t[idx(x)]| && t[idx(x)][j].key == x;
        assert t'[idx(x)][if idx(x) == h then j + 1 else j].key == x;
      }
    }
  }

  /** A binding leaves its bucket. */
  lemma Unlink<K(!new), V>(t: seq<seq<Entry<K, V>>>, m: map<K, V>, idx: K -> nat, h: nat, j: nat)
    requires Represents(t, m, idx) && h < |t| && j < |t[h]|
    ensures t[h][j].key in m
    ensures Represents(t[h := t[h][..j] + t[h][j + 1..]], m - {t[h][j].key}, idx)
  {
    assert Belongs(t[h][j], h, m, idx);
    var k := t[h][j].key;
    var chain := t[h][..j] + t[h][j + 1..];
    var t' := t[h := chain];
    forall i, l | 0 <= i < |t'| && 0 <= l < |t'[i]| ensures Belongs(t'[i][l], i, m - {k}, idx) {
      var l' := if i == h && l >= j then l + 1 else l;
      assert t'[i][l] == t[i][l'] && Belongs(t[i][l'], i, m, idx);
    }
    forall i, l | 0 <= i < l < |chain| ensures chain[i].key != chain[l].key {
      assert chain[i] == t[h][if i < j then i else i + 1] && chain[l] == t[h][if l < j then l else l + 1];
    }
    forall x | x in m - {k} ensures HasKey(t'[idx(x)], x) {
      var b := idx(x);
      var i :| 0 <= i < |t[b]| && t[b][i].key == x;
      assert t'[b][if b == h && i > j then i - 1 else i].key == x;
    }
  }

  /** A binding gets another value in place. */
  lemma Revalue<K(!new), V>(t: seq<seq<Entry<K, V>>>, m: map<K, V>, idx: K -> nat, h: nat, j: nat, v: V)
    requires Represents(t, m, idx) && h < |t| && j < |t[h]|
    ensures t[h][j].key in m
    ensures Represents(t[h := t[h][j := Entry(t[h][j].key, v)]], m[t[h][j].key := v], idx)
  {
    assert Belongs(t[h][j], h, m, idx);
    var k := t[h][j].key;
    var chain := t[h][j := Entry(k, v)];
    var t' := t[h := chain];
    forall i, l | 0 <= i < |t'| && 0 <= l < |t'[i]| ensures Belongs(t'[i][l], i, m[k := v], idx) {
      assert Belongs(t[i][l], i, m, idx) && t'[i][l].key == t[i][l].key;
      if t[i][l].key == k {
        assert i == h && l == j;
      }
    }
    forall x | x in m[k := v] ensures HasKey(t'[idx(x)], x) {
      var i :| 0 <= i < |t[idx(x)]| && t[idx(x)][i].key == x;
      assert t'[idx(x)][i].key == x;
    }
  }

  // ---------- the table ----------

  /** The status of the program, or an access to the table at a negative index, or through a null pointer. */
  datatype Status = OK | ERR | Stray

  class Dict<K(==, !new), V> {
    const hash: K -> u32
    var table: array<seq<Entry<K, V>>>
    var size: nat
    var sizemask: nat
    var used: nat
    ghost var M: map<K, V>

    ghost function Idx(size: nat): K -> nat
      requires size > 0
    {
      k => Bucket(hash(k), size)
    }

    ghost predicate Valid()
      reads this, table
    {
      && size == table.Length && (size == 0 || (IsPowerOfTwo(size) && size >= INITIAL_SIZE))
      && sizemask == (if size == 0 then 0 else size - 1)
      && used == |M| == Total(table[..]) && used <= size
      && (size > 0 ==> Represents(table[..], M, Idx(size)))
    }

    constructor (hash: K -> u32)
      ensures Valid() && M == map[] && this.hash == hash && fresh(table)
    {
      this.hash := hash;
      table, size, sizemask, used := new seq<Entry<K, V>>[0], 0, 0, 0;
      M := map[];
    }

    /** dictHashKey(ht, key) & ht->sizemask. */
    function Index(k: K): (i: nat)
      requires size > 0 && sizemask == size - 1
      reads `size, `sizemask
      ensures i == Idx(size)(k) < size
    {
      AndBelow(hash(k), sizemask);
      And(hash(k), sizemask)
    }

    /** The position of `k` in its chain. */
    method Walk(k: K) returns (h: nat, j: nat)
      requires Valid() && size > 0
      ensures h == Idx(size)(k) && j <= |table[h]|
      ensures j < |table[h]| ==> table[h][j].key == k && k in M && M[k] == table[h][j].val
      ensures j == |table[h]| ==> k !in M
    {
      h := Index(k);
      j := 0;
      while j < |table[h]| && table[h][j].key != k
        invariant j <= |table[h]| && forall i :: 0 <= i < j ==> table[h][i].key != k
      {
        j := j + 1;
      }
      if j < |table[h]| {
        assert Belongs(table[..][h][j], h, M, Idx(size));
      } else {
        assert !HasKey(table[..][h], k);
      }
    }

    /** dictFind. */
    method Find(k: K) returns (v: Option<V>)
      requires Valid()
      ensures v == if k in M then Some(M[k]) else None
    {
      if size == 0 {
        return None;
      }
      var h, j := Walk(k);
      v := if j < |table[h]| then Some(table[h][j].val) else None;
    }

    /** dictExpand: a table of at least `newSize` buckets, into which every entry is rehashed. */
    method Expand(newSize: nat) returns (status: Status)
      requires Valid() && newSize < LONG_MAX
      modifies this
      ensures Valid() && M == old(M) && (status == OK <==> old(used) <= newSize)
      ensures status == OK ==> fresh(table) && size >= newSize && (size > INITIAL_SIZE ==> size / 2 < newSize)
      ensures status == ERR ==> unchanged(this)
    {
      var realSize := NextPower(newSize);
      if used > newSize {
        return ERR;
      }
      var nt := new seq<Entry<K, V>>[realSize](_ => []);
      var newUsed := used;
      TotalEmpty(nt[..]);
      if size > 0 {
        Rehash(nt);
      }
      assert used == 0;
      table, size, sizemask, used := nt, realSize, realSize - 1, newUsed;
      return OK;
    }

    /** Moves every entry of the old table to `nt`; nothing is left in the old one. */
    method Rehash(nt: array<seq<Entry<K, V>>>)
      requires Valid() && size > 0 && nt != table && nt.Length > 0 && nt[..] == seq(nt.Length, _ => [])
      modifies nt, `used
      ensures used == 0 && Represents(nt[..], M, Idx(nt.Length)) && Total(nt[..]) == |M|
    {
      TotalEmpty(nt[..]);
      FirstBucket(M, Idx(size), table[..]);
      RehashAll(nt, Idx(size), table[..]);
    }

    method RehashAll(nt: array<seq<Entry<K, V>>>, ghost idx: K -> nat, ghost t: seq<seq<Entry<K, V>>>)
      requires nt != table && nt.Length > 0 && size == |t| && table[..] == t && Represents(t, M, idx)
      requires Filled(nt[..], map[], Idx(nt.Length)) && used == |M| && MovedBefore(M, map[], idx, 0, t)
      modifies nt, `used
      ensures used == 0 && Filled(nt[..], M, Idx(nt.Length))
    {
      ghost var moved: map<K, V>, nidx := map[], Idx(nt.Length);
      var i := 0;
      while i < size && used > 0
        invariant i <= size && table[..] == t && used == |M| - |moved|
        invariant Filled(nt[..], moved, nidx)
        invariant MovedBefore(M, moved, idx, i, t)
        decreases size - i
      {
        moved := RehashBucket(nt, moved, i, idx, nidx, t);
        i := i + 1;
      }
      assert i == |t| || |moved| == |M|;
      AllMoved(M, moved, idx, i, t);
    }

    method RehashBucket(nt: array<seq<Entry<K, V>>>, ghost moved: map<K, V>, i: nat, ghost idx: K -> nat,
                        ghost nidx: K -> nat,
                        ghost t: seq<seq<Entry<K, V>>>)
      returns (ghost moved': map<K, V>)
      requires nt != table && nt.Length > 0 && i < |t| && table[..] == t && Represents(t, M, idx)
               && nidx == Idx(nt.Length)
      requires Filled(nt[..], moved, nidx) && used == |M| - |moved| && MovedBefore(M, moved, idx, i, t)
      modifies nt, `used
      ensures Filled(nt[..], moved', nidx) && used == |M| - |moved'| && MovedBefore(M, moved', idx, i + 1, t)
    {
      ChainAt(M, idx, t, i);
      moved' := MoveChain(nt, moved, i, table[i], idx);
      NextBucket(M, moved', idx, t, i + 1);
    }

    method MoveChain(nt: array<seq<Entry<K, V>>>, ghost moved: map<K, V>, i: nat, chain: seq<Entry<K, V>>,
                     ghost idx: K -> nat)
      returns (ghost moved': map<K, V>)
      requires nt.Length > 0 && Filled(nt[..], moved, Idx(nt.Length)) && used == |M| - |moved|
      requires MovedUpTo(M, moved, idx, i, chain) && IsChain(chain, i, M, idx)
      modifies nt, `used
      ensures Filled(nt[..], moved', Idx(nt.Length)) && used == |M| - |moved'|
      ensures MovedUpTo(M, moved', idx, i, [])
    {
      moved' := moved;
      var rest := chain;
      while rest != []
        invariant Filled(nt[..], moved', Idx(nt.Length)) && used == |M| - |moved'|
        invariant MovedUpTo(M, moved', idx, i, rest) && IsChain(rest, i, M, idx)
        decreases |rest|
      {
        var e := rest[0];
        MovedMore(M, moved', idx, i, rest);
        PushEntry(nt, moved', e);
        moved' := moved'[e.key := e.val];
        rest := rest[1..];
      }
    }

    /** Pushes an entry on its chain in the new table. */
    method PushEntry(nt: array<seq<Entry<K, V>>>, ghost moved: map<K, V>, e: Entry<K, V>)
      requires nt.Length > 0 && Filled(nt[..], moved, Idx(nt.Length)) && e.key !in moved && used > 0
      modifies nt, `used
      ensures Filled(nt[..], moved[e.key := e.val], Idx(nt.Length)) && used == old(used) - 1
    {
      AndBelow(hash(e.key), nt.Length - 1);
      var h := And(hash(e.key), nt.Length - 1);
      ghost var t := nt[..];
      Prepend(t, moved, Idx(nt.Length), e.key, e.val);
      TotalUpdate(t, h, [e] + t[h]);
      nt[h] := [e] + nt[h];
      assert nt[..] == t[h := [e] + t[h]];
      used := used - 1;
    }

    /** _dictExpandIfNeeded: four buckets to begin with, twice as many whenever the table is full. */
    method ExpandIfNeeded()
      requires Valid() && NextSize() < LONG_MAX
      modifies this
      ensures Valid() && M == old(M) && size > used && size == old(NextSize())
      ensures old(size) == 0 ==> size == 4
      ensures old(size) > 0 ==> size == if old(used) == old(size) then 2 * old(size) else old(size)
      ensures table == old(table) || fresh(table)
    {
      if size == 0 {
        var status := Expand(INITIAL_SIZE);
        assert IsPowerOfTwo(4) by { assert IsPowerOfTwo(2); }
        PowersApart(INITIAL_SIZE, size);
      } else if used == size {
        ghost var wanted := size * 2;
        var status := Expand(size * 2);
        assert IsPowerOfTwo(wanted);
        PowersApart(wanted, size);
      }
    }

    /** The number of buckets at the next insertion. */
    ghost function NextSize(): nat
      reads `size, `used
    {
      if size == 0 then INITIAL_SIZE else if used == size then size * 2 else size
    }

    /** _dictKeyIndex: the bucket for a new key as a C int, or -1 when the key is there. */
    method KeyIndex(k: K) returns (index: int)
      requires Valid() && NextSize() < LONG_MAX
      modifies this
      ensures Valid() && M == old(M) && size > used && size == old(NextSize())
      ensures table == old(table) || fresh(table)
      ensures index == if k in M then -1 else Signed32(Idx(size)(k))
      ensures k !in M ==> (index == Idx(size)(k) <==> Idx(size)(k) < MAX_BUCKETS)
      ensures k !in M ==> (index < 0 <==> Idx(size)(k) >= MAX_BUCKETS) && (index == -1 <==> Idx(size)(k) == 0xFFFF_FFFF)
    {
      ExpandIfNeeded();
      var h, j := Walk(k);
      if j < |table[h]| {
        return -1;
      }
      BucketSigned(hash(k), size);
      return Signed32(h);
    }

    /**
     * dictAdd: refuses a key that is already there. A new key is bound exactly when the index of its bucket is a C
     * int; in the last of 2^32 buckets it is taken for one that is there, and in the others from 2^31 on the access is
     * stray.
     */
    method Add(k: K, v: V) returns (status: Status)
      requires Valid() && NextSize() < LONG_MAX
      modifies this, table
      ensures Valid() && (table == old(table) || fresh(table)) && size == old(NextSize())
      ensures status == OK <==> k !in old(M) && Idx(size)(k) < MAX_BUCKETS
      ensures status == ERR <==> k in old(M) || Idx(size)(k) == 0xFFFF_FFFF
      ensures status == OK ==> table[Idx(size)(k)] != [] && table[Idx(size)(k)][0] == Entry(k, v)
      ensures M == if status == OK then old(M)[k := v] else old(M)
    {
      var index := KeyIndex(k);
      if index == -1 {
        return ERR;
      } else if index < 0 {
        return Stray;
      }
      Prepend(table[..], M, Idx(size), k, v);
      SetChain(index, [Entry(k, v)] + table[index], used + 1, M[k := v]);
      return OK;
    }

    /** One bucket gets another chain, and the table stands for `m`. */
    method SetChain(h: nat, chain: seq<Entry<K, V>>, newUsed: nat, ghost m: map<K, V>)
      requires Valid() && h < size && Represents(table[..][h := chain], m, Idx(size))
      requires newUsed == |m| == used - |table[h]| + |chain| && newUsed <= size
      modifies `used, `M, table
      ensures Valid() && M == m && table[..] == old(table[..])[h := chain]
    {
      TotalUpdate(table[..], h, chain);
      ghost var t := table[..];
      table[h] := chain;
      assert table[..] == t[h := chain];
      used := newUsed;
      M := m;
    }

    /** dictReplace: OK for a new key, ERR for one that had a value. */
    method Replace(k: K, v: V) returns (status: Status)
      requires Valid() && NextSize() < LONG_MAX
      modifies this, table
      ensures Valid() && (table == old(table) || fresh(table)) && size == old(NextSize())
      ensures status == ERR <==> k in old(M)
      ensures status == OK <==> k !in old(M) && Idx(size)(k) < MAX_BUCKETS
      ensures M == if status == Stray then old(M) else old(M)[k := v]
    {
      status := Add(k, v);
      if status != ERR {
        return;
      }
      status := Update(k, v);
    }

    method Update(k: K, v: V) returns (status: Status)
      requires Valid() && size > 0
      modifies this, table
      ensures Valid() && table == old(table) && size == old(size)
      ensures status == (if k in old(M) then ERR else Stray) && M == if k in old(M) then old(M)[k := v] else old(M)
    {
      var h, j := Walk(k);
      if j == |table[h]| {
        return Stray;
      }
      Revalue(table[..], M, Idx(size), h, j, v);
      SetChain(h, table[h][j := Entry(k, v)], used, M[k := v]);
      return ERR;
    }

    /** dictDelete. */
    method Delete(k: K) returns (status: Status)
      requires Valid()
      modifies this, table
      ensures Valid() && table == old(table) && size == old(size)
      ensures status == OK <==> k in old(M)
      ensures M == old(M) - {k}
      ensures size > 0 ==> var h := Idx(size)(k); table[..] == old(table[..])[h := Removed(old(table[..])[h], k)]
    {
      if size == 0 {
        return ERR;
      }
      status := DeleteFrom(k);
    }

    method DeleteFrom(k: K) returns (status: Status)
      requires Valid() && size > 0
      modifies `used, `M, table
      ensures Valid() && (status == OK <==> k in old(M)) && M == old(M) - {k}
      ensures var h := Idx(size)(k); table[..] == old(table[..])[h := Removed(old(table[..])[h], k)]
    {
      var h, j := Walk(k);
      if j == |table[h]| {
        RemovedNone(table[h], k);
        return ERR;
      }
      RemoveAt(h, j);
      return OK;
    }

    method RemoveAt(h: nat, j: nat)
      requires Valid() && h < size && j < |table[h]|
      modifies `used, `M, table
      ensures old(table[h][j].key) in old(M) && Valid() && M == old(M) - {old(table[h][j].key)}
      ensures table[..] == old(table[..])[h := Removed(old(table[h]), old(table[h][j].key))]
    {
      Unlink(table[..], M, Idx(size), h, j);
      RemovedOne(table[h], j);
      SetChain(h, table[h][..j] + table[h][j + 1..], used - 1, M - {table[h][j].key});
    }
  }

  /** The chain without the entry for `k`. */
  function Removed<K(==), V>(chain: seq<Entry<K, V>>, k: K): seq<Entry<K, V>> {
    if chain == [] then [] else if chain[0].key == k then chain[1..] else [chain[0]] + Removed(chain[1..], k)
  }

  lemma {:induction false} RemovedNone<K, V>(chain: seq<Entry<K, V>>, k: K)
    requires forall j :: 0 <= j < |chain| ==> chain[j].key != k
    ensures Removed(chain, k) == chain
  {
    if chain != [] {
      RemovedNone(chain[1..], k);
    }
  }

  lemma {:induction false} RemovedOne<K, V>(chain: seq<Entry<K, V>>, j: nat)
    requires DistinctKeys(chain) && j < |chain|
    ensures Removed(chain, chain[j].key) == chain[..j] + chain[j + 1..]
  {
    if j > 0 {
      RemovedOne(chain[1..], j - 1);
      assert chain[..j] + chain[j + 1..] == [chain[0]] + (chain[1..][..j - 1] + chain[1..][j..]);
    }
  }

  ghost predicate Filled<K(!new), V>(t: seq<seq<Entry<K, V>>>, m: map<K, V>, idx: K -> nat) {
    Represents(t, m, idx) && Total(t) == |m|
  }

  /** Of the bindings `m`, exactly those have been moved that were in buckets before `i`, or in
      bucket `i` but not in `rest`. */
  ghost predicate MovedUpTo<K(!new), V>(m: map<K, V>, moved: map<K, V>, idx: K -> nat, i: nat, rest: seq<Entry<K, V>>) {
    && (forall k :: k in moved ==> k in m && moved[k] == m[k])
    && (forall k :: k in m ==> (k in moved <==> !(idx(k) > i || (idx(k) == i && HasKey(rest, k)))))
  }

  lemma MovedMore<K(!new), V>(m: map<K, V>, moved: map<K, V>, idx: K -> nat, i: nat, rest: seq<Entry<K, V>>)
    requires rest != [] && MovedUpTo(m, moved, idx, i, rest) && IsChain(rest, i, m, idx)
    ensures rest[0].key !in moved && |moved| < |m|
    ensures MovedUpTo(m, moved[rest[0].key := rest[0].val], idx, i, rest[1..]) && IsChain(rest[1..], i, m, idx)
  {
    var e := rest[0];
    assert Belongs(e, i, m, idx);
    assert HasKey(rest, e.key);
    forall k | k in m && k != e.key ensures HasKey(rest, k) <==> HasKey(rest[1..], k) {
      if HasKey(rest, k) {
        var j :| 0 <= j < |rest| && rest[j].key == k;
        assert rest[1..][j - 1].key == k;
      }
      if HasKey(rest[1..], k) {
        var j :| 0 <= j < |rest[1..]| && rest[1..][j].key == k;
        assert rest[j + 1].key == k;
      }
    }
    assert !HasKey(rest[1..], e.key);
    SmallerMap(moved, m, e.key);
  }

  /** Entries of bucket `i`, with different keys. */
  ghost predicate IsChain<K(!new), V>(chain: seq<Entry<K, V>>, i: nat, m: map<K, V>, idx: K -> nat) {
    DistinctKeys(chain) && forall j :: 0 <= j < |chain| ==> Belongs(chain[j], i, m, idx)
  }

  lemma ChainAt<K(!new), V>(m: map<K, V>, idx: K -> nat, t: seq<seq<Entry<K, V>>>, i: nat)
    requires i < |t| && Represents(t, m, idx)
    ensures IsChain(t[i], i, m, idx)
  {
  }

  /** Everything in the buckets before `i` has been moved, and nothing else. */
  ghost predicate MovedBefore<K(!new), V>(m: map<K, V>, moved: map<K, V>, idx: K -> nat, i: nat,
                                          t: seq<seq<Entry<K, V>>>) {
    MovedUpTo(m, moved, idx, i, if i < |t| then t[i] else [])
  }

  lemma FirstBucket<K(!new), V>(m: map<K, V>, idx: K -> nat, t: seq<seq<Entry<K, V>>>)
    requires |t| > 0 && Represents(t, m, idx)
    ensures MovedBefore(m, map[], idx, 0, t)
  {
  }

  lemma AllMoved<K(!new), V>(m: map<K, V>, moved: map<K, V>, idx: K -> nat, i: nat, t: seq<seq<Entry<K, V>>>)
    requires Represents(t, m, idx) && i <= |t| && MovedBefore(m, moved, idx, i, t)
    requires i == |t| || |moved| == |m|
    ensures moved == m
  {
    SameMap(moved, m);
  }

  lemma NextBucket<K(!new), V>(m: map<K, V>, moved: map<K, V>, idx: K -> nat, t: seq<seq<Entry<K, V>>>, i: nat)
    requires 0 < i <= |t| && MovedUpTo(m, moved, idx, i - 1, []) && Represents(t, m, idx)
    ensures MovedBefore(m, moved, idx, i, t)
  {
  }

  lemma SmallerMap<K, V>(a: map<K, V>, b: map<K, V>, k: K)
    requires (forall x :: x in a ==> x in b) && k in b && k !in a
    ensures |a| < |b|
  {
    SmallerSet(a.Keys, b.Keys, k);
  }

  lemma SmallerSet<K>(a: set<K>, b: set<K>, k: K)
    requires a <= b && k in b && k !in a
    ensures |a| < |b|
  {
    assert b == a + {k} + (b - a - {k});
  }

  lemma SameMap<K, V>(a: map<K, V>, b: map<K, V>)
    requires (forall k :: k in a ==> k in b && a[k] == b[k]) && (|a| == |b| || forall k :: k in b ==> k in a)
    ensures a == b
  {
    if k :| k in b && k !in a {
      SmallerMap(a, b, k);
    }
  }

  // ---------- the iterator ----------

  /** The entries of the buckets from `i` on, bucket by bucket. */
  function Flat<K, V>(t: seq<seq<Entry<K, V>>>, i: nat): seq<Entry<K, V>>
    decreases |t| - i
  {
    if i >= |t| then [] else t[i] + Flat(t, i + 1)
  }

  /** The chain from the entry for `k` on. */
  function From<K(==), V>(chain: seq<Entry<K, V>>, k: K): seq<Entry<K, V>> {
    if chain == [] then [] else if chain[0].key == k then chain else From(chain[1..], k)
  }

  lemma {:induction false} FromAt<K, V>(chain: seq<Entry<K, V>>, j: nat)
    requires DistinctKeys(chain) && j < |chain|
    ensures From(chain, chain[j].key) == chain[j..]
  {
    if j > 0 {
      FromAt(chain[1..], j - 1);
      assert chain[1..][j - 1..] == chain[j..];
    } else {
      assert chain[0..] == chain;
    }
  }

  /** Removing an entry does not touch the part of the chain after it. */
  lemma {:induction false} FromRemoved<K, V>(chain: seq<Entry<K, V>>, j: nat, i: nat)
    requires DistinctKeys(chain) && j < i < |chain|
    ensures From(Removed(chain, chain[j].key), chain[i].key) == From(chain, chain[i].key)
  {
    RemovedOne(chain, j);
    var r := Without(chain, j);
    FromAt(r, i - 1);
    assert r[i - 1] == chain[i];
    FromAt(chain, i);
    assert r[i - 1..] == chain[i..];
  }

  function Without<T>(s: seq<T>, j: nat): (r: seq<T>)
    requires j < |s|
    ensures |r| == |s| - 1 && forall l :: 0 <= l < |r| ==> r[l] == s[if l < j then l else l + 1]
  {
    s[..j] + s[j + 1..]
  }

  /** An iterator's position: its bucket, the entry last returned and the one saved after it. */
  ghost predicate Sits<K(!new), V>(t: seq<seq<Entry<K, V>>>, index: int, entry: Option<K>, next: Option<K>) {
    index >= -1 && (entry.Some? ==> 0 <= index < |t| && (next.Some? ==> HasKey(t[index], next.value)))
  }

  /** The entries still to be returned from a position. */
  function PendingOf<K(==), V>(t: seq<seq<Entry<K, V>>>, index: int, entry: Option<K>, next: Option<K>)
    : seq<Entry<K, V>>
    requires index >= -1
  {
    (if entry.Some? && next.Some? && 0 <= index < |t| then From(t[index], next.value) else []) + Flat(t, index + 1)
  }

  ghost predicate AllDistinct<K(!new), V>(t: seq<seq<Entry<K, V>>>) {
    forall i :: 0 <= i < |t| ==> DistinctKeys(t[i])
  }

  /** The buckets that an iterator reaches: none if there are more than a C int can count. */
  function Reached<K, V>(t: seq<seq<Entry<K, V>>>): seq<seq<Entry<K, V>>> {
    if |t| < MAX_BUCKETS then t else []
  }

  lemma ChainsDistinct<K(!new), V>(t: seq<seq<Entry<K, V>>>, m: map<K, V>, idx: K -> nat, all: seq<seq<Entry<K, V>>>)
    requires Represents(all, m, idx) && t == Reached(all)
    ensures AllDistinct(t)
  {
  }

  /** Position `at` of bucket `index` is where the pending entries start. */
  ghost predicate At<K(!new), V>(t: seq<seq<Entry<K, V>>>, pending: seq<Entry<K, V>>, index: int, at: nat) {
    && 0 <= index < |t| && at <= |t[index]| && DistinctKeys(t[index])
    && pending == t[index][at..] + Flat(t, index + 1)
  }

  /** The position is right behind `e`. */
  ghost predicate ReturnedIn<K(!new), V>(t: seq<seq<Entry<K, V>>>, index: int, entry: Option<K>, next: Option<K>,
                                         e: Entry<K, V>)
  {
    && 0 <= index < |t| && entry == Some(e.key)
    && exists j :: 0 <= j < |t[index]| && t[index][j] == e && next == KeyAt(t[index], j + 1)
  }

  /** Looking for the next of the entries `was`: still to be found, found and behind the position, or there was none. */
  ghost predicate Advanced<K(!new), V>(t: seq<seq<Entry<K, V>>>, was: seq<Entry<K, V>>, r: Option<Entry<K, V>>,
                                       more: bool, index: int, entry: Option<K>, next: Option<K>)
  {
    && Sits(t, index, entry, next)
    && var pending := PendingOf(t, index, entry, next);
    if more then r == None && pending == was
    else if r.None? then was == [] && pending == []
    else was == [r.value] + pending && ReturnedIn(t, index, entry, next, r.value)
  }

  /** Returning the entry at position `at` of bucket `index`, and saving the next one. */
  lemma Fetch<K(!new), V>(t: seq<seq<Entry<K, V>>>, index: nat, at: nat, was: seq<Entry<K, V>>)
    requires At(t, was, index, at) && at < |t[index]|
    ensures Advanced(t, was, Some(t[index][at]), false, index, Some(t[index][at].key), KeyAt(t[index], at + 1))
  {
    var chain := t[index];
    if at + 1 < |chain| {
      FromAt(chain, at + 1);
      assert chain[at + 1].key == KeyAt(chain, at + 1).value;
    }
    assert chain[at..] == [chain[at]] + chain[at + 1..];
  }

  class DictIterator<K(==, !new), V> {
    const ht: Dict<K, V>
    var index: int
    var entry: Option<K>       // the entry last returned
    var nextEntry: Option<K>   // the entry after it, saved because the caller may delete it

    constructor (ht: Dict<K, V>)
      requires ht.Valid()
      ensures this.ht == ht && Sitting() && Pending() == Flat(Reached(ht.table[..]), 0)
    {
      this.ht := ht;
      index, entry, nextEntry := -1, None, None;
    }

    ghost predicate Sitting()
      reads this, ht, ht.table
    {
      Sits(Reached(ht.table[..]), index, entry, nextEntry)
    }

    /** The entries still to be returned. */
    ghost function Pending(): seq<Entry<K, V>>
      requires Sitting()
      reads this, ht, ht.table
    {
      PendingOf(Reached(ht.table[..]), index, entry, nextEntry)
    }

    /** `e` has just been returned: it is at the current position, and its successor is saved. */
    ghost predicate Returned(e: Entry<K, V>)
      reads this, ht, ht.table
    {
      ReturnedIn(Reached(ht.table[..]), index, entry, nextEntry, e)
    }

    /** The size as a C int bounds the buckets that the iterator reaches. */
    ghost predicate Bounded(t: seq<seq<Entry<K, V>>>)
      reads ht
    {
      Signed32(ht.size) <= 0 == |t| || Signed32(ht.size) == |t|
    }

    lemma SizeReached()
      requires ht.Valid()
      ensures Bounded(Reached(ht.table[..]))
    {
      if ht.size >= MAX_BUCKETS {
        LargeSizeSigned(ht.size);
      }
    }

    /** dictNext: the next pending entry. */
    method Next() returns (r: Option<Entry<K, V>>)
      requires ht.Valid() && Sitting()
      modifies this
      ensures Sitting()
      ensures old(Pending()) == [] ==> r == None && Pending() == []
      ensures old(Pending()) != [] ==>
                r == Some(old(Pending())[0]) && Pending() == old(Pending())[1..] && Returned(r.value)
    {
      ghost var t, was := Reached(ht.table[..]), Pending();
      if ht.size > 0 {
        ChainsDistinct(t, ht.M, ht.Idx(ht.size), ht.table[..]);
      }
      SizeReached();
      r := None;
      var more := true;
      while more
        invariant Advanced(t, was, r, more, index, entry, nextEntry)
        decreases more, |t| - index, entry.Some?
      {
        r, more := Turn(t, was);
      }
    }

    /** One turn of the loop: the entry returned or the end, or one bucket less to look at. */
    method Turn(ghost t: seq<seq<Entry<K, V>>>, ghost was: seq<Entry<K, V>>)
      returns (r: Option<Entry<K, V>>, more: bool)
      requires t == Reached(ht.table[..]) && Bounded(t) && AllDistinct(t)
               && Advanced(t, was, None, true, index, entry, nextEntry)
      modifies this
      ensures Advanced(t, was, r, more, index, entry, nextEntry)
      ensures more ==> entry == None && index < |t| && (old(entry) == None ==> index == old(index) + 1)
      ensures more && old(entry).Some? ==> index == old(index)
    {
      var at;
      at, more := Seek(t, was);
      if !more {
        return None, false;
      }
      var chain := ht.table[index];
      assert chain == t[index];
      if at < |chain| {
        r, more := Some(chain[at]), false;
        Fetch(t, index, at, was);
        entry, nextEntry := Some(chain[at].key), KeyAt(chain, at + 1);
      } else {
        r := None;
        entry := None;
      }
    }

    /** Where the next entry would be: the saved one, or the first of the next bucket if there is one. */
    method Seek(ghost t: seq<seq<Entry<K, V>>>, ghost was: seq<Entry<K, V>>) returns (at: nat, more: bool)
      requires t == Reached(ht.table[..]) && Bounded(t) && AllDistinct(t)
               && Advanced(t, was, None, true, index, entry, nextEntry)
      modifies `index
      ensures index == if old(entry).None? then old(index) + 1 else old(index)
      ensures if more then At(t, was, index, at) else Advanced(t, was, None, false, index, entry, nextEntry)
    {
      if entry.None? {
        index := index + 1;
        if index >= Signed32(ht.size) {
          return 0, false;
        }
        assert t[index][0..] == t[index];
        return 0, true;
      }
      at := PositionOf(ht.table[index], nextEntry);
      more := true;
    }

    method PositionOf(chain: seq<Entry<K, V>>, key: Option<K>) returns (at: nat)
      requires DistinctKeys(chain) && (key.Some? ==> HasKey(chain, key.value))
      ensures at <= |chain| && chain[at..] == (if key.Some? then From(chain, key.value) else [])
    {
      if key.None? {
        return |chain|;
      }
      at := 0;
      while chain[at].key != key.value
        invariant at < |chain| && forall j :: 0 <= j < at ==> chain[j].key != key.value
        decreases |chain| - at
      {
        at := at + 1;
      }
      FromAt(chain, at);
    }

    /** The caller deletes the entry it was just given: what is pending stays pending. */
    method DeleteReturned(e: Entry<K, V>)
      requires ht.Valid() && Sitting() && Returned(e)
      modifies ht, ht.table
      ensures ht.Valid() && ht.M == old(ht.M) - {e.key} && ht.table == old(ht.table)
      ensures Sitting() && Pending() == old(Pending())
    {
      ghost var t, m, idx := ht.table[..], ht.M, ht.Idx(ht.size);
      var status := ht.Delete(e.key);
      ReturnedDeleted(t, ht.table[..], m, idx, index, entry, nextEntry, e);
    }
  }

  lemma ReturnedDeleted<K(!new), V>(t: seq<seq<Entry<K, V>>>, t': seq<seq<Entry<K, V>>>, m: map<K, V>, idx: K -> nat,
                                    index: int, entry: Option<K>, next: Option<K>, e: Entry<K, V>)
    requires Represents(t, m, idx) && ReturnedIn(Reached(t), index, entry, next, e)
    requires var h := idx(e.key); h < |t| && t' == t[h := Removed(t[h], e.key)]
    ensures Sits(Reached(t'), index, entry, next)
    ensures PendingOf(Reached(t'), index, entry, next) == PendingOf(Reached(t), index, entry, next)
  {
    assert Reached(t) == t && Reached(t') == t';
    var j :| 0 <= j < |t[index]| && t[index][j] == e && next == KeyAt(t[index], j + 1);
    assert Belongs(t[index][j], index, m, idx) && DistinctKeys(t[index]);
    PendingKept(t, index, j, t');
  }

  lemma PendingKept<K(!new), V>(t: seq<seq<Entry<K, V>>>, index: nat, j: nat, t': seq<seq<Entry<K, V>>>)
    requires index < |t| && j < |t[index]| && DistinctKeys(t[index])
             && t' == t[index := Removed(t[index], t[index][j].key)]
    ensures var k, next := Some(t[index][j].key), KeyAt(t[index], j + 1);
      Sits(t', index, k, next) && PendingOf(t', index, k, next) == PendingOf(t, index, k, next)
  {
    if j + 1 < |t[index]| {
      FromRemoved(t[index], j, j + 1);
      RemovedOne(t[index], j);
      assert t'[index][j] == t[index][j + 1];
    }
    FlatSame(t, t', index + 1);
  }

  function KeyAt<K, V>(chain: seq<Entry<K, V>>, j: nat): Option<K> {
    if j < |chain| then Some(chain[j].key) else None
  }

  lemma {:induction false} FlatSame<K, V>(t: seq<seq<Entry<K, V>>>, t': seq<seq<Entry<K, V>>>, i: nat)
    requires |t| == |t'| && forall j :: i <= j < |t| ==> t[j] == t'[j]
    ensures Flat(t, i) == Flat(t', i)
    decreases |t| - i
  {
    if i < |t| {
      FlatSame(t, t', i + 1);
    }
  }

  /** The entries from bucket `i` on: their keys differ and lie in those buckets. */
  lemma {:induction false} FlatDistinct<K(!new), V>(t: seq<seq<Entry<K, V>>>, m: map<K, V>, idx: K -> nat, i: nat)
    requires Represents(t, m, idx)
    ensures DistinctKeys(Flat(t, i))
    ensures forall j :: 0 <= j < |Flat(t, i)| ==>
              Flat(t, i)[j].key in m && m[Flat(t, i)[j].key] == Flat(t, i)[j].val && idx(Flat(t, i)[j].key) >= i
    ensures forall k :: k in m && idx(k) >= i ==> HasKey(Flat(t, i), k)
    decreases |t| - i
  {
    if i < |t| {
      FlatDistinct(t, m, idx, i + 1);
      var rest, flat := Flat(t, i + 1), Flat(t, i);
      ChainAt(m, idx, t, i);
      forall j | 0 <= j < |flat| ensures flat[j].key in m && m[flat[j].key] == flat[j].val && idx(flat[j].key) >= i {
        if j < |t[i]| {
          assert Belongs(t[i][j], i, m, idx);
        } else {
          assert flat[j] == rest[j - |t[i]|];
        }
      }
      forall a, b | 0 <= a < b < |flat| ensures flat[a].key != flat[b].key {
        if a < |t[i]| <= b {
          assert Belongs(t[i][a], i, m, idx) && flat[b] == rest[b - |t[i]|];
        } else if a >= |t[i]| {
          assert flat[a] == rest[a - |t[i]|] && flat[b] == rest[b - |t[i]|];
        }
      }
      forall k | k in m && idx(k) >= i ensures HasKey(flat, k) {
        if idx(k) == i {
          var j :| 0 <= j < |t[i]| && t[i][j].key == k;
          assert flat[j].key == k;
        } else {
          var j :| 0 <= j < |rest| && rest[j].key == k;
          assert flat[j + |t[i]|].key == k;
        }
      }
    }
  }

  /** `entries` holds every binding of `m` once, and nothing else. */
  ghost predicate Lists<K(!new), V>(entries: seq<Entry<K, V>>, m: map<K, V>) {
    && DistinctKeys(entries)
    && (forall j :: 0 <= j < |entries| ==> entries[j].key in m && m[entries[j].key] == entries[j].val)
    && (forall k :: k in m ==> HasKey(entries, k))
  }

  lemma FlatLists<K(!new), V>(t: seq<seq<Entry<K, V>>>, m: map<K, V>, idx: K -> nat)
    requires Represents(t, m, idx)
    ensures Lists(Flat(t, 0), m)
  {
    FlatDistinct(t, m, idx, 0);
  }

  lemma DroppedListed<K(!new), V>(m: map<K, V>, entries: seq<Entry<K, V>>, drop: K -> bool)
    requires Lists(entries, m)
    ensures Dropped(m, entries, drop) == map k | k in m && !drop(k) :: m[k]
  {
  }

  /**
   * Iterating over a dictionary, deleting some of the entries as they are returned. Every entry is visited exactly
   * once, and exactly the chosen ones are gone afterwards, if and only if the dictionary is empty or an int can count
   * its buckets; otherwise nothing is visited.
   */
  method VisitAll<K(==, !new), V>(d: Dict<K, V>, drop: K -> bool) returns (visited: seq<Entry<K, V>>)
    requires d.Valid()
    modifies d, d.table
    ensures d.Valid()
    ensures Lists(visited, old(d.M)) <==> old(d.M) == map[] || old(d.size) < MAX_BUCKETS
    ensures old(d.size) < MAX_BUCKETS ==> d.M == map k | k in old(d.M) && !drop(k) :: old(d.M)[k]
    ensures old(d.size) >= MAX_BUCKETS ==> visited == [] && d.M == old(d.M)
  {
    ghost var m, t, size := d.M, d.table[..], d.size;
    if 0 < size < MAX_BUCKETS {
      FlatLists(t, m, d.Idx(d.size));
    } else if size == 0 {
      assert m == map[] by { if k :| k in m { SmallerMap(map[], m, k); } }
    }
    visited := Visit(d, drop);
    NothingListed(m);
    if size < MAX_BUCKETS {
      DroppedListed(m, visited, drop);
    } else {
      DroppedNone(m, drop);
    }
  }

  lemma NothingListed<K(!new), V>(m: map<K, V>)
    ensures Lists([], m) <==> m == map[]
  {
    if Lists([], m) {
      assert forall k :: k !in m;
    }
  }

  method Visit<K(==, !new), V>(d: Dict<K, V>, drop: K -> bool) returns (visited: seq<Entry<K, V>>)
    requires d.Valid()
    modifies d, d.table
    ensures d.Valid() && visited == Flat(Reached(old(d.table[..])), 0) && d.M == Dropped(old(d.M), visited, drop)
  {
    ghost var m, all := d.M, Flat(Reached(d.table[..]), 0);
    var it := new DictIterator(d);
    visited := [];
    DroppedNone(m, drop);
    assert visited + it.Pending() == all;
    var more := true;
    while more
      invariant d.Valid() && it.Sitting() && it.ht == d && fresh(it) && d.table == old(d.table)
      invariant visited + it.Pending() == all && (!more ==> it.Pending() == [])
      invariant d.M == Dropped(m, visited, drop)
      decreases |it.Pending()|, more
    {
      visited, more := VisitOne(it, drop, visited, m);
    }
    assert visited + [] == visited;
  }

  lemma DroppedNone<K(!new), V>(m: map<K, V>, drop: K -> bool)
    ensures Dropped(m, [], drop) == m
  {
  }

  /** The bindings left when those visited and chosen have been dropped. */
  ghost function Dropped<K(!new), V>(m: map<K, V>, visited: seq<Entry<K, V>>, drop: K -> bool): map<K, V> {
    map k | k in m && !(drop(k) && HasKey(visited, k)) :: m[k]
  }

  method VisitOne<K(==, !new), V>(it: DictIterator<K, V>, drop: K -> bool, visited: seq<Entry<K, V>>,
                                  ghost m: map<K, V>)
    returns (visited': seq<Entry<K, V>>, more: bool)
    requires it.ht.Valid() && it.Sitting() && it.ht.M == Dropped(m, visited, drop)
    modifies it, it.ht, it.ht.table
    ensures it.ht.Valid() && it.Sitting() && it.ht.M == Dropped(m, visited', drop) && it.ht.table == old(it.ht.table)
    ensures visited' + it.Pending() == visited + old(it.Pending())
    ensures if more then |it.Pending()| < old(|it.Pending()|) else it.Pending() == []
  {
    ghost var pending := it.Pending();
    var r := it.Next();
    if r.None? {
      return visited, false;
    }
    var e := r.value;
    NextVisited(visited, e, it.Pending(), pending);
    DroppedMore(m, visited, drop, e);
    if drop(e.key) {
      it.DeleteReturned(e);
    }
    return visited + [e], true;
  }

  lemma NextVisited<T>(visited: seq<T>, e: T, rest: seq<T>, pending: seq<T>)
    requires pending != [] && e == pending[0] && rest == pending[1..]
    ensures visited + [e] + rest == visited + pending && |rest| < |pending|
  {
  }

  lemma DroppedMore<K(!new), V>(m: map<K, V>, visited: seq<Entry<K, V>>, drop: K -> bool, e: Entry<K, V>)
    ensures Dropped(m, visited + [e], drop) ==
            if drop(e.key) then Dropped(m, visited, drop) - {e.key} else Dropped(m, visited, drop)
  {
    HasKeyMore(visited, e);
  }

  lemma HasKeyMore<K, V>(chain: seq<Entry<K, V>>, e: Entry<K, V>)
    ensures forall k :: HasKey(chain + [e], k) <==> HasKey(chain, k) || k == e.key
  {
    forall k ensures HasKey(chain + [e], k) <==> HasKey(chain, k) || k == e.key {
      if HasKey(chain, k) {
        var j :| 0 <= j < |chain| && chain[j].key == k;
        assert (chain + [e])[j].key == k;
      }
      assert (chain + [e])[|chain|] == e;
    }
  }
}
