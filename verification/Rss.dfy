/** The hash that assigns connections to cores, in the host's words, and the per-core pool of source addresses. */
module Rss {
  // A bit of the key, counted from the front; every octet of the key is 0x05.
  predicate KeyBit(i: bv32) { i & 7 == 5 || i & 7 == 7 }

  // Bit b of a word, the most significant first.
  predicate WordBit(w: bv32, b: bv32)
    requires b < 32
  {
    (w << b) & 0x8000_0000 != 0
  }

  // The 32 bits of the key from bit r on; it repeats after 8 bits.
  function Window(r: int): bv32
    requires 0 <= r < 8
  {
    match r
    case 0 => 0x0505_0505
    case 1 => 0x0A0A_0A0A
    case 2 => 0x1414_1414
    case 3 => 0x2828_2828
    case 4 => 0x5050_5050
    case 5 => 0xA0A0_A0A0
    case 6 => 0x4141_4141
    case 7 => 0x8282_8282
  }

  function AsWord(r: int): bv32
    requires 0 <= r < 8
  {
    match r
    case 0 => 0 case 1 => 1 case 2 => 2 case 3 => 3 case 4 => 4 case 5 => 5 case 6 => 6 case 7 => 7
  }

  lemma WindowIsKey(r: int)
    requires 0 <= r < 8
    ensures forall b: bv32 :: b < 32 ==> (WordBit(Window(r), b) <==> KeyBit(AsWord(r) + b))
  {
  }

  const KEY_CACHE_LEN := 96

  // The key's window at bit i.
  function KeyAt(i: int): bv32 { Window(i % 8) }

  // ((key[idx / 8] << idx % 8) & 0x80) != 0
  predicate NextBit(idx: int)
    requires 0 <= idx
  {
    match idx % 8
    case 0 => (0x05 as bv8) & 0x80 != 0
    case 1 => ((0x05 as bv8) << 1) & 0x80 != 0
    case 2 => ((0x05 as bv8) << 2) & 0x80 != 0
    case 3 => ((0x05 as bv8) << 3) & 0x80 != 0
    case 4 => ((0x05 as bv8) << 4) & 0x80 != 0
    case 5 => ((0x05 as bv8) << 5) & 0x80 != 0
    case 6 => ((0x05 as bv8) << 6) & 0x80 != 0
    case 7 => ((0x05 as bv8) << 7) & 0x80 != 0
  }

  function ShiftIn(w: bv32, bit: bool): bv32 { (w << 1) | (if bit then 1 else 0) }

  lemma WindowMoves(i: int)
    requires 0 <= i
    ensures KeyAt(i + 1) == ShiftIn(KeyAt(i), NextBit(i + 32))
  {
    assert (i + 32) % 8 == i % 8;
    assert (i + 1) % 8 == if i % 8 == 7 then 0 else i % 8 + 1;
  }

  // BuildKeyCache: entry i is the key's window at bit i.
  method BuildKeyCache(cache: array<bv32>)
    requires cache.Length == KEY_CACHE_LEN
    modifies cache
    ensures forall i :: 0 <= i < KEY_CACHE_LEN ==> cache[i] == KeyAt(i)
  {
    hide KeyAt, NextBit, ShiftIn;
    var result: bv32 := FirstWindow();
    var idx, i := 32, 0;
    while i < cache.Length
      invariant 0 <= i <= cache.Length && idx == 32 + i && result == KeyAt(i)
      invariant forall j :: 0 <= j < i ==> cache[j] == KeyAt(j)
    {
      cache[i] := result;
      WindowMoves(i);
      result := ShiftIn(result, NextBit(idx));
      i, idx := i + 1, idx + 1;
    }
  }

  function FirstWindow(): (w: bv32)
    ensures w == KeyAt(0)
  {
    ((0x05 as bv32) << 24) | ((0x05 as bv32) << 16) | ((0x05 as bv32) << 8) | 0x05
  }

  function Xor(a: bv32, b: bv32): bv32 { a ^ b }

  lemma XorFacts(a: bv32, b: bv32, c: bv32)
    ensures Xor(a, Xor(b, c)) == Xor(Xor(a, b), c) && Xor(a, b) == Xor(b, a) && Xor(a, 0) == a && Xor(a, a) == 0
  {
  }

  predicate First32(x: bv32) { x & 0x8000_0000 != 0 }
  predicate First16(x: bv16) { x & 0x8000 != 0 }
  function Drop32(x: bv32): bv32 { x << 1 }
  function Drop16(x: bv16): bv16 { x << 1 }

  // The windows at the set bits of a word of the tuple whose first bit is bit i of the tuple, added without carry.
  function Part32(x: bv32, i: nat, n: nat): bv32
    decreases n
  {
    if n == 0 then 0 else Xor(if First32(x) then KeyAt(i) else 0, Part32(Drop32(x), i + 1, n - 1))
  }

  function Part16(x: bv16, i: nat, n: nat): bv32
    decreases n
  {
    if n == 0 then 0 else Xor(if First16(x) then KeyAt(i) else 0, Part16(Drop16(x), i + 1, n - 1))
  }

  // The Toeplitz hash of a connection: 96 bits, one window each.
  function Hash(sip: bv32, dip: bv32, sp: bv16, dp: bv16): bv32 {
    Xor(Xor(Xor(Part32(sip, 0, 32), Part32(dip, 32, 32)), Part16(sp, 64, 16)), Part16(dp, 80, 16))
  }

  // GetRSSHash
  method GetRSSHash(sip: bv32, dip: bv32, sp: bv16, dp: bv16) returns (res: bv32)
    ensures res == Hash(sip, dip, sp, dp)
  {
    hide Part32, Part16, Xor, KeyAt;
    var keyCache := new bv32[KEY_CACHE_LEN];
    BuildKeyCache(keyCache);
    res := 0;
    XorFacts(Part32(sip, 0, 32), 0, 0);
    XorFacts(0, Part32(sip, 0, 32), 0);
    res := Words32(keyCache, sip, 0, res);
    res := Words32(keyCache, dip, 32, res);
    res := Words16(keyCache, sp, 64, res);
    res := Words16(keyCache, dp, 80, res);
  }

  // One turn of a loop below: the first of n bits is taken.
  lemma Turn32(w: bv32, i: nat, n: nat, res: bv32)
    requires 0 < n
    ensures Xor(res, Part32(w, i, n)) ==
            Xor(if First32(w) then Xor(res, KeyAt(i)) else res, Part32(Drop32(w), i + 1, n - 1))
  {
    hide KeyAt, Xor, First32, Drop32;
    XorFacts(res, if First32(w) then KeyAt(i) else 0, Part32(Drop32(w), i + 1, n - 1));
    XorFacts(res, 0, 0);
  }

  lemma Turn16(w: bv16, i: nat, n: nat, res: bv32)
    requires 0 < n
    ensures Xor(res, Part16(w, i, n)) ==
            Xor(if First16(w) then Xor(res, KeyAt(i)) else res, Part16(Drop16(w), i + 1, n - 1))
  {
    hide KeyAt, Xor, First16, Drop16;
    XorFacts(res, if First16(w) then KeyAt(i) else 0, Part16(Drop16(w), i + 1, n - 1));
    XorFacts(res, 0, 0);
  }

  lemma NoBits(x: bv32, y: bv16, i: nat, res: bv32)
    ensures Xor(res, Part32(x, i, 0)) == res && Xor(res, Part16(y, i, 0)) == res
  {
  }

  // One loop over the bits of an address.
  method Words32(keyCache: array<bv32>, word: bv32, base: nat, res0: bv32) returns (res: bv32)
    requires keyCache.Length == KEY_CACHE_LEN && base + 32 <= KEY_CACHE_LEN
    requires forall i :: 0 <= i < KEY_CACHE_LEN ==> keyCache[i] == KeyAt(i)
    ensures res == Xor(res0, Part32(word, base, 32))
  {
    hide KeyAt, Xor, Part32, First32, Drop32;
    var w, i: nat := word, 0;
    res := res0;
    while i < 32
      invariant i <= 32 && Xor(res, Part32(w, base + i, 32 - i)) == Xor(res0, Part32(word, base, 32))
    {
      Turn32(w, base + i, 32 - i, res);
      if First32(w) {
        res := Xor(res, keyCache[base + i]);
      }
      w := Drop32(w);
      i := i + 1;
    }
    NoBits(w, 0, base + 32, res);
  }

  // One loop over the bits of a port.
  method Words16(keyCache: array<bv32>, word: bv16, base: nat, res0: bv32) returns (res: bv32)
    requires keyCache.Length == KEY_CACHE_LEN && base + 16 <= KEY_CACHE_LEN
    requires forall i :: 0 <= i < KEY_CACHE_LEN ==> keyCache[i] == KeyAt(i)
    ensures res == Xor(res0, Part16(word, base, 16))
  {
    hide KeyAt, Xor, Part16, First16, Drop16;
    var w, i: nat := word, 0;
    res := res0;
    while i < 16
      invariant i <= 16 && Xor(res, Part16(w, base + i, 16 - i)) == Xor(res0, Part16(word, base, 16))
    {
      Turn16(w, base + i, 16 - i, res);
      if First16(w) {
        res := Xor(res, keyCache[base + i]);
      }
      w := Drop16(w);
      i := i + 1;
    }
    NoBits(0, w, base + 16, res);
  }

  // ---------------------------------------------------------------- what the hash promises

  function Xor16(a: bv16, b: bv16): bv16 { a ^ b }

  lemma FirstOfXor(x: bv32, y: bv32)
    ensures First32(Xor(x, y)) <==> First32(x) != First32(y)
  {
  }

  lemma DropOfXor(x: bv32, y: bv32)
    ensures Drop32(Xor(x, y)) == Xor(Drop32(x), Drop32(y))
  {
  }

  lemma FirstOfXor16(x: bv16, y: bv16)
    ensures First16(Xor16(x, y)) <==> First16(x) != First16(y)
  {
  }

  lemma DropOfXor16(x: bv16, y: bv16)
    ensures Drop16(Xor16(x, y)) == Xor16(Drop16(x), Drop16(y))
  {
  }

  // Adding without carry can be done in any order.
  lemma XorSwap(a: bv32, b: bv32, c: bv32, d: bv32)
    ensures Xor(Xor(a, b), Xor(c, d)) == Xor(Xor(a, c), Xor(b, d))
  {
    hide Xor;
    XorFacts(Xor(a, b), c, d);
    XorFacts(a, b, c);
    XorFacts(b, c, 0);
    XorFacts(a, c, b);
    XorFacts(Xor(a, c), b, d);
  }

  lemma {:induction false} PartLinear(x: bv32, y: bv32, i: nat, n: nat)
    ensures Part32(Xor(x, y), i, n) == Xor(Part32(x, i, n), Part32(y, i, n))
    decreases n
  {
    hide Xor, First32, Drop32, KeyAt;
    if n == 0 {
      XorFacts(0, 0, 0);
    } else {
      FirstOfXor(x, y);
      DropOfXor(x, y);
      PartLinear(Drop32(x), Drop32(y), i + 1, n - 1);
      XorFacts(KeyAt(i), 0, 0);
      XorFacts(0, 0, 0);
      XorFacts(0, KeyAt(i), 0);
      XorSwap(if First32(x) then KeyAt(i) else 0, Part32(Drop32(x), i + 1, n - 1),
              if First32(y) then KeyAt(i) else 0, Part32(Drop32(y), i + 1, n - 1));
    }
  }

  lemma {:induction false} PartLinear16(x: bv16, y: bv16, i: nat, n: nat)
    ensures Part16(Xor16(x, y), i, n) == Xor(Part16(x, i, n), Part16(y, i, n))
    decreases n
  {
    hide Xor, Xor16, First16, Drop16, KeyAt;
    if n == 0 {
      XorFacts(0, 0, 0);
    } else {
      FirstOfXor16(x, y);
      DropOfXor16(x, y);
      PartLinear16(Drop16(x), Drop16(y), i + 1, n - 1);
      XorFacts(KeyAt(i), 0, 0);
      XorFacts(0, 0, 0);
      XorFacts(0, KeyAt(i), 0);
      XorSwap(if First16(x) then KeyAt(i) else 0, Part16(Drop16(x), i + 1, n - 1),
              if First16(y) then KeyAt(i) else 0, Part16(Drop16(y), i + 1, n - 1));
    }
  }

  // The hash of the sum of two tuples is the sum of their hashes.
  lemma HashLinear(sip: bv32, dip: bv32, sp: bv16, dp: bv16, sip': bv32, dip': bv32, sp': bv16, dp': bv16)
    ensures Hash(Xor(sip, sip'), Xor(dip, dip'), Xor16(sp, sp'), Xor16(dp, dp'))
            == Xor(Hash(sip, dip, sp, dp), Hash(sip', dip', sp', dp'))
  {
    hide Xor, Xor16, Part32, Part16;
    PartLinear(sip, sip', 0, 32);
    PartLinear(dip, dip', 32, 32);
    PartLinear16(sp, sp', 64, 16);
    PartLinear16(dp, dp', 80, 16);
    var a, b, c, d := Part32(sip, 0, 32), Part32(dip, 32, 32), Part16(sp, 64, 16), Part16(dp, 80, 16);
    var a', b', c', d' := Part32(sip', 0, 32), Part32(dip', 32, 32), Part16(sp', 64, 16), Part16(dp', 80, 16);
    XorSwap(a, a', b, b');
    XorSwap(Xor(a, b), Xor(a', b'), c, c');
    XorSwap(Xor(Xor(a, b), c), Xor(Xor(a', b'), c'), d, d');
  }

  // The key repeats, so a word counts the same at every place a multiple of eight bits away.
  lemma {:induction false} PartMoves(x: bv32, i: nat, j: nat, n: nat)
    requires i % 8 == j % 8
    ensures Part32(x, i, n) == Part32(x, j, n)
    decreases n
  {
    hide Xor, First32, Drop32, Window;
    if n > 0 {
      assert (i + 1) % 8 == (j + 1) % 8;
      PartMoves(Drop32(x), i + 1, j + 1, n - 1);
    }
  }

  lemma {:induction false} PartMoves16(x: bv16, i: nat, j: nat, n: nat)
    requires i % 8 == j % 8
    ensures Part16(x, i, n) == Part16(x, j, n)
    decreases n
  {
    hide Xor, First16, Drop16, Window;
    if n > 0 {
      assert (i + 1) % 8 == (j + 1) % 8;
      PartMoves16(Drop16(x), i + 1, j + 1, n - 1);
    }
  }

  // Both directions of a connection have the same hash.
  lemma HashSymmetric(sip: bv32, dip: bv32, sp: bv16, dp: bv16)
    ensures Hash(sip, dip, sp, dp) == Hash(dip, sip, dp, sp)
  {
    hide Xor, Part32, Part16;
    PartMoves(sip, 0, 32, 32);
    PartMoves(dip, 0, 32, 32);
    PartMoves16(sp, 64, 80, 16);
    PartMoves16(dp, 64, 80, 16);
    var a, b, c, d := Part32(sip, 0, 32), Part32(dip, 0, 32), Part16(sp, 64, 16), Part16(dp, 64, 16);
    XorFacts(a, b, 0);
    XorFacts(Xor(a, b), c, d);
    XorFacts(Xor(a, b), d, c);
    XorFacts(c, d, 0);
  }

  // ---------------------------------------------------------------- bit by bit

  // Whether an odd number of the n bits of w from bit k on, which are the tuple's from bit i on, is set where the key
  // has a set bit b further on.
  predicate Odd(w: bv32, k: bv32, i: bv32, n: nat, b: bv32)
    decreases n
  {
    0 < n && k < 32 && (WordBit(w, k) && KeyBit(i + b)) != Odd(w, k + 1, i + 1, n - 1, b)
  }

  // A port as the front of a word.
  function Front(p: bv16): bv32 { (p as bv32) << 16 }

  lemma FrontBits(p: bv16)
    ensures (First32(Front(p)) <==> First16(p)) && Drop32(Front(p)) == Front(Drop16(p))
  {
  }

  lemma {:induction false} PartOfPort(p: bv16, i: nat, n: nat)
    ensures Part16(p, i, n) == Part32(Front(p), i, n)
    decreases n
  {
    hide Xor, First32, First16, Drop32, Drop16, Front, KeyAt;
    if n > 0 {
      FrontBits(p);
      PartOfPort(Drop16(p), i + 1, n - 1);
    }
  }

  lemma BitOfXor(x: bv32, y: bv32, b: bv32)
    requires b < 32
    ensures (WordBit(Xor(x, y), b) <==> WordBit(x, b) != WordBit(y, b)) && !WordBit(0, b)
  {
  }

  lemma BitOfKey(at: nat, i: bv32, b: bv32)
    requires AsWord(at % 8) == i & 7 && b < 32
    ensures WordBit(KeyAt(at), b) <==> KeyBit(i + b)
  {
    hide Window, WordBit;
    WindowIsKey(at % 8);
    SameKeyBit(AsWord(at % 8), i, b);
    hide AsWord, KeyBit;
  }

  lemma SameKeyBit(u: bv32, i: bv32, b: bv32)
    requires u == i & 7
    ensures KeyBit(u + b) <==> KeyBit(i + b)
  {
    assert (u + b) & 7 == (i + b) & 7;
  }

  lemma NextPlace(at: nat, i: bv32)
    requires AsWord(at % 8) == i & 7
    ensures AsWord((at + 1) % 8) == (i + 1) & 7
  {
    assert (at + 1) % 8 == if at % 8 == 7 then 0 else at % 8 + 1;
    assert (i + 1) & 7 == ((i & 7) + 1) & 7;
  }

  // What is left of a word after k bits.
  function After(w: bv32, k: bv32): bv32 { if k < 32 then w << k else 0 }

  lemma AfterOne(w: bv32, k: bv32)
    requires k < 32
    ensures Drop32(After(w, k)) == After(w, k + 1) && (First32(After(w, k)) <==> WordBit(w, k))
  {
  }

  lemma AllShifted(w: bv32)
    ensures After(w, 0) == w && !First32(0) && Drop32(0) == 0
  {
  }

  lemma {:induction false} NoPart(at: nat, n: nat)
    ensures Part32(0, at, n) == 0
    decreases n
  {
    hide Xor, First32, Drop32, KeyAt;
    if n > 0 {
      AllShifted(0);
      NoPart(at + 1, n - 1);
      XorFacts(0, 0, 0);
    }
  }

  lemma {:induction false} PartBits(w: bv32, k: bv32, i: bv32, n: nat, at: nat, b: bv32)
    requires b < 32 && AsWord(at % 8) == i & 7
    ensures WordBit(Part32(After(w, k), at, n), b) <==> Odd(w, k, i, n, b)
    decreases n
  {
    hide Xor, First32, Drop32, KeyAt, KeyBit, WordBit, AsWord, After;
    BitOfXor(0, 0, b);
    if n > 0 {
      if k < 32 {
        NextPlace(at, i);
        PartBits(w, k + 1, i + 1, n - 1, at + 1, b);
        OnePart(w, k, i, n, at, b);
      } else {
        NothingLeft(w, k);
        NoPart(at, n);
      }
    }
  }

  lemma NothingLeft(w: bv32, k: bv32)
    requires k >= 32
    ensures After(w, k) == 0
  {
  }

  lemma OnePart(w: bv32, k: bv32, i: bv32, n: nat, at: nat, b: bv32)
    requires b < 32 && k < 32 && 0 < n && AsWord(at % 8) == i & 7
    ensures WordBit(Part32(After(w, k), at, n), b) <==>
            (WordBit(w, k) && KeyBit(i + b)) != WordBit(Part32(After(w, k + 1), at + 1, n - 1), b)
  {
    hide Xor, First32, Drop32, KeyAt, KeyBit, WordBit, AsWord, After;
    AfterOne(w, k);
    BitOfKey(at, i, b);
    BitOfXor(if WordBit(w, k) then KeyAt(at) else 0, Part32(After(w, k + 1), at + 1, n - 1), b);
  }

  // Bit b of the hash: whether an odd number of the 96 tuple bits i is set for which bit i + b of the key is.
  lemma HashBits(sip: bv32, dip: bv32, sp: bv16, dp: bv16, b: bv32)
    requires b < 32
    ensures WordBit(Hash(sip, dip, sp, dp), b) <==>
            ((Odd(sip, 0, 0, 32, b) != Odd(dip, 0, 32, 32, b)) != Odd(Front(sp), 0, 64, 16, b))
            != Odd(Front(dp), 0, 80, 16, b)
  {
    hide Xor, Part32, Part16, WordBit, Odd, Front, After;
    PartOfPort(sp, 64, 16);
    PartOfPort(dp, 80, 16);
    var a, c, d, e := Part32(sip, 0, 32), Part32(dip, 32, 32), Part32(Front(sp), 64, 16), Part32(Front(dp), 80, 16);
    BitOfXor(Xor(Xor(a, c), d), e, b);
    BitOfXor(Xor(a, c), d, b);
    BitOfXor(a, c, b);
    AllShifted(sip);
    AllShifted(dip);
    AllShifted(Front(sp));
    AllShifted(Front(dp));
    PartBits(sip, 0, 0, 32, 0, b);
    PartBits(dip, 0, 32, 32, 32, b);
    PartBits(Front(sp), 0, 64, 16, 64, b);
    PartBits(Front(dp), 0, 80, 16, 80, b);
  }

  // The redirection table of the second kind of card: groups of four queues in reverse order.
  function Redirect(m: bv32): bv32 {
    var low := m & 3;
    m + (if low == 0 then 3 else if low == 1 then 1 else if low == 2 then 0xFFFF_FFFF else 0xFFFF_FFFD)
  }

  lemma RedirectReverses(m: bv32)
    ensures Redirect(m) == m ^ 3
  {
  }

  function Number(w: bv32): (n: nat) { w as int }

  // The queue of a hash, which is the core.
  function Queue(hash: bv32, redirects: bool, numQueues: int): (core: int)
    requires 0 < numQueues
    ensures 0 <= core < numQueues
  {
    Number(if redirects then Redirect(hash & 0x1FF) else hash & 0x7F) % numQueues
  }

  // Every core has its hash: with 128 entries, or 512 that the card redirects, none of as many queues is left out.
  lemma EveryCoreIsUsed(core: bv32, numQueues: int)
    requires Number(core) < numQueues
    ensures core < 128 ==> Queue(core, false, numQueues) == Number(core)
    ensures core < 512 ==> Queue(core ^ 3, true, numQueues) == Number(core)
  {
    hide Redirect, Number;
    RedirectReverses((core ^ 3) & 0x1FF);
    MaskedCore(core);
  }

  lemma MaskedCore(core: bv32)
    ensures core < 128 ==> core & 0x7F == core
    ensures core < 512 ==> ((core ^ 3) & 0x1FF) ^ 3 == core
  {
  }

  // GetRSSCPUCore
  function CpuCore(sip: bv32, dip: bv32, sp: bv16, dp: bv16, redirects: bool, numQueues: int): int
    requires 0 < numQueues
  {
    Queue(Hash(sip, dip, sp, dp), redirects, numQueues)
  }

  lemma SameCoreBothWays(sip: bv32, dip: bv32, sp: bv16, dp: bv16, redirects: bool, numQueues: int)
    requires 0 < numQueues
    ensures CpuCore(sip, dip, sp, dp, redirects, numQueues) == CpuCore(dip, sip, dp, sp, redirects, numQueues)
  {
    hide Queue, Hash;
    HashSymmetric(sip, dip, sp, dp);
  }
}
