/** The static hash (src/base_struct/yf_hash.c): elements packed behind each other in bucket memory,
    read back by aligning past each name. Names are compared without regard to case. */
module StaticHash {
  import opened Arith
  import opened Seqs

  const NULL := 0
  const PTR := 8            // sizeof(void *) and YF_ALIGNMENT
  const U16 := 0x1_0000     // sizes of buckets are computed in 16 bits
  const U8 := 0x100         // elt->len has 8 bits
  const WORD := 0x1_0000_0000_0000_0000

  /** One byte of memory: part `k` of a pointer, a length, a character, or padding. */
  datatype Cell = Part(value: int, k: int) | Len(n: int) | Chr(c: char) | Pad

  /** yf_hash_key_t; a name without data is skipped. */
  datatype Name = Name(key: string, present: bool, hash: nat, value: int)

  function Tolower(c: char): char {
    if 'A' <= c <= 'Z' then (c as int + 32) as char else c
  }

  /** The same letter, perhaps in the other case. */
  predicate SameLetter(c: char, d: char) {
    c == d || ('A' <= c <= 'Z' && d as int - c as int == 'a' as int - 'A' as int)
    || ('a' <= c <= 'z' && c as int - d as int == 'a' as int - 'A' as int)
  }

  /** Lower case is the same for two characters exactly if they are the same but for case. */
  lemma TolowerMeets(c: char, d: char)
    ensures Tolower(c) == Tolower(d) <==> SameLetter(c, d)
    ensures SameLetter(c, Tolower(c)) && !('A' <= Tolower(c) <= 'Z')
  {
  }

  function Lower(s: string): (r: string)
    ensures |r| == |s| && forall i :: 0 <= i < |s| ==> r[i] == Tolower(s[i])
  {
    seq(|s|, i requires 0 <= i < |s| => Tolower(s[i]))
  }

  /** An aligned offset in front does not disturb alignment. */
  lemma {:induction false} AlignShift(off: nat, x: nat)
    requires off % PTR == 0
    ensures RoundUp(off + x, PTR) == off + RoundUp(x, PTR)
  {
    var k := off / PTR;
    assert off == k * PTR;
    var q, r := (x + PTR - 1) / PTR, (x + PTR - 1) % PTR;
    assert off + x + PTR - 1 == (k + q) * PTR + r;
    DivIs(off + x + PTR - 1, PTR, k + q, r);
  }

  /** YF_HASH_ELT_SIZE */
  function EltSize(len: nat): (r: nat)
    ensures r >= PTR + len + 1 && r % PTR == 0
  {
    PTR + RoundUp(len + 1, PTR)
  }

  function Ptr(value: int): (r: seq<Cell>) ensures |r| == PTR { seq(PTR, k => Part(value, k)) }

  /** An element as memory holds it: value, length, lower-case name, padding. */
  function Element(value: int, key: string): (r: seq<Cell>)
    ensures |r| == EltSize(|key|)
  {
    Ptr(value) + [Len(|key| % U8)] + seq(|key|, i requires 0 <= i < |key| => Chr(Tolower(key[i])))
      + seq(EltSize(|key|) - PTR - 1 - |key|, _ => Pad)
  }

  /** The names of one bucket, in order. */
  function InBucket(names: seq<Name>, size: nat, b: nat): seq<Name>
    requires size > 0
  {
    if names == [] then [] else
      var n := |names| - 1;
      InBucket(names[..n], size, b) + if names[n].present && names[n].hash % size == b then [names[n]] else []
  }

  function Packed(names: seq<Name>): seq<Cell> {
    if names == [] then [] else Element(names[0].value, names[0].key) + Packed(names[1..])
  }

  function SizeOf(names: seq<Name>): (r: nat)
    ensures r % PTR == 0
  {
    if names == [] then 0 else EltSize(|names[0].key|) + SizeOf(names[1..])
  }

  lemma {:induction false} PackedSize(names: seq<Name>)
    ensures |Packed(names)| == SizeOf(names)
  {
    if names != [] {
      PackedSize(names[1..]);
    }
  }

  lemma {:induction false} PackedNone()
    ensures Packed([]) == [] && SizeOf([]) == 0
  {
  }

  lemma {:induction false} PackedStep(n: Name, names: seq<Name>)
    ensures Packed([n] + names) == Element(n.value, n.key) + Packed(names)
    ensures SizeOf([n] + names) == EltSize(|n.key|) + SizeOf(names)
  {
    assert ([n] + names)[1..] == names;
  }

  lemma {:induction false} PackedCat(a: seq<Name>, b: seq<Name>)
    ensures Packed(a + b) == Packed(a) + Packed(b) && SizeOf(a + b) == SizeOf(a) + SizeOf(b)
  {
    hide Packed, Element, EltSize, SizeOf;
    if a == [] {
      PackedNone();
      assert a + b == b;
    } else {
      PackedCat(a[1..], b);
      PackedStep(a[0], a[1..] + b);
      PackedStep(a[0], a[1..]);
      assert a + b == [a[0]] + (a[1..] + b) && a == [a[0]] + a[1..];
    }
  }

  /** The value of the first name that is equal but for case, or NULL. */
  function Lookup(names: seq<Name>, name: string): int {
    if names == [] then NULL
    else if names[0].present && Lower(names[0].key) == Lower(name) then names[0].value
    else Lookup(names[1..], name)
  }

  ghost predicate Usable(names: seq<Name>) {
    forall k :: 0 <= k < |names| && names[k].present ==> names[k].value != NULL && |names[k].key| < 256
  }

  /** The hash values given are those of the lower-case names. */
  ghost predicate HashedLike(names: seq<Name>, name: string, key: nat) {
    forall k :: 0 <= k < |names| && names[k].present && Lower(names[k].key) == Lower(name) ==> names[k].hash == key
  }

  lemma {:induction false} LookupCat(a: seq<Name>, b: seq<Name>, name: string)
    requires Usable(a)
    ensures Lookup(a + b, name) == if Lookup(a, name) != NULL then Lookup(a, name) else Lookup(b, name)
  {
    if a == [] {
      assert a + b == b;
    } else {
      LookupCat(a[1..], b, name);
      assert (a + b)[1..] == a[1..] + b;
    }
  }

  lemma {:induction false} BucketUsable(names: seq<Name>, size: nat, b: nat)
    requires size > 0 && Usable(names)
    ensures Usable(InBucket(names, size, b))
    ensures forall k :: 0 <= k < |InBucket(names, size, b)| ==> InBucket(names, size, b)[k].present
  {
    if names != [] {
      BucketUsable(names[..|names| - 1], size, b);
    }
  }

  /** Looking in the bucket of the hash value is as good as looking at all names. */
  lemma {:induction false} BucketSuffices(names: seq<Name>, size: nat, name: string, key: nat)
    requires size > 0 && Usable(names) && HashedLike(names, name, key)
    ensures Lookup(InBucket(names, size, key % size), name) == Lookup(names, name)
  {
    if names != [] {
      var n := |names| - 1;
      var b := key % size;
      BucketSuffices(names[..n], size, name, key);
      BucketUsable(names[..n], size, b);
      assert names == names[..n] + [names[n]];
      LookupCat(names[..n], [names[n]], name);
      var last := if names[n].present && names[n].hash % size == b then [names[n]] else [];
      LookupCat(InBucket(names[..n], size, b), last, name);
      assert [names[n]][1..] == [];
    }
  }

  // ----- what memory holds -----

  ghost predicate HoldsAt(mem: seq<Cell>, at: int, d: seq<Cell>) {
    0 <= at && at + |d| <= |mem| && mem[at..at + |d|] == d
  }

  datatype Hash = Hash(size: nat, buckets: seq<int>, mem: seq<Cell>)

  const EMPTY := -1   // a bucket pointer that is NULL

  /** A bucket holds its names' elements and the NULL value that ends them. */
  ghost predicate BucketOk(mem: seq<Cell>, at: int, names: seq<Name>) {
    if names == [] then at == EMPTY else at % PTR == 0 && HoldsAt(mem, at, Packed(names) + Ptr(NULL))
  }

  ghost predicate Built(h: Hash, names: seq<Name>) {
    && h.size > 0 && |h.buckets| == h.size
    && forall b :: 0 <= b < h.size ==> BucketOk(h.mem, h.buckets[b], InBucket(names, h.size, b))
  }

  lemma {:induction false} HoldsSplit(mem: seq<Cell>, at: int, d: seq<Cell>, e: seq<Cell>)
    ensures HoldsAt(mem, at, d + e) <==> HoldsAt(mem, at, d) && HoldsAt(mem, at + |d|, e)
  {
    if 0 <= at && at + |d| + |e| <= |mem| {
      var m := mem[at..at + |d| + |e|];
      assert mem[at..at + |d|] == m[..|d|] && mem[at + |d|..at + |d| + |e|] == m[|d|..];
      assert m == m[..|d|] + m[|d|..];
    }
  }

  /** What the reader finds at the start of an element. */
  lemma {:induction false} ElementRead(mem: seq<Cell>, at: int, value: int, key: string)
    requires HoldsAt(mem, at, Element(value, key))
    ensures 0 <= at && at + PTR + 1 + |key| <= |mem| && mem[at] == Part(value, 0) && mem[at + PTR] == Len(|key| % U8)
    ensures forall i :: 0 <= i < |key| ==> mem[at + PTR + 1 + i] == Chr(Tolower(key[i]))
  {
    var e := Element(value, key);
    var m := mem[at..at + |e|];
    assert m[0] == Ptr(value)[0] == Part(value, 0);
    assert m[PTR] == Len(|key| % U8);
    forall i | 0 <= i < |key|
      ensures mem[at + PTR + 1 + i] == Chr(Tolower(key[i]))
    {
      assert m[PTR + 1 + i] == Chr(Tolower(key[i]));
    }
  }

  /** yf_hash_find. With the hash value of the lower-case name it answers like a map that ignores case. */
  method Find(h: Hash, key: nat, name: string, ghost names: seq<Name>) returns (value: int)
    requires Built(h, names) && Usable(names) && HashedLike(names, name, key)
    ensures value == Lookup(names, name)
  {
    hide HoldsAt, Element, Packed, Lookup, InBucket, EltSize, RoundUp, Built, Usable, HashedLike, Lower, Value,
      LenAt, Ptr;
    var elt;
    ghost var left;
    elt, left := Bucket(h, key, names);
    BucketSuffices(names, h.size, name, key);
    if elt == EMPTY {
      NothingFound(name);
      return NULL;
    }
    EndRead(h.mem, elt, left);
    while Value(h.mem, elt) != NULL
      invariant elt % PTR == 0 && HoldsAt(h.mem, elt, Packed(left) + Ptr(NULL)) && Usable(left)
      invariant forall k :: 0 <= k < |left| ==> left[k].present
      invariant Lookup(left, name) == Lookup(names, name)
      invariant (0 <= elt && elt + PTR < |h.mem| && left != []) || (0 <= elt < |h.mem| && left == [])
      invariant Value(h.mem, elt) == (if left == [] then NULL else left[0].value)
      invariant (left != [] ==> left[0].value != NULL)
      decreases |left|
    {
      FirstRead(h.mem, elt, left);
      LookupStep(left, name);
      var len := LenAt(h.mem, elt);
      var same := Matches(h.mem, elt, len, name, left[0].key);
      if same {
        return Value(h.mem, elt);
      }
      Onward(h.mem, elt, left);
      TailUsable(left);
      elt := RoundUp(elt + PTR + 1 + len, PTR);
      left := left[1..];
      EndRead(h.mem, elt, left);
    }
    NothingFound(name);
    return NULL;
  }

  /** Lines 19-30 */
  method Matches(mem: seq<Cell>, elt: int, len: int, name: string, ghost key: string) returns (same: bool)
    requires 0 <= elt && elt + PTR + 1 + |key| <= |mem| && len == |key|
    requires forall i :: 0 <= i < |key| ==> mem[elt + PTR + 1 + i] == Chr(Tolower(key[i]))
    ensures same <==> Lower(key) == Lower(name)
  {
    hide Lower;
    SameName(key, name);
    same := len == |name|;
    if same {
      var i := 0;
      while i < |name| && same
        invariant 0 <= i <= |name| == |key|
        invariant same ==> forall j :: 0 <= j < i ==> Tolower(name[j]) == Tolower(key[j])
        invariant !same ==> exists j :: 0 <= j < |name| && Tolower(name[j]) != Tolower(key[j])
      {
        if Chr(Tolower(name[i])) != mem[elt + PTR + 1 + i] {
          same := false;
        }
        i := i + 1;
      }
    }
  }

  method Bucket(h: Hash, key: nat, ghost names: seq<Name>) returns (elt: int, ghost left: seq<Name>)
    requires Built(h, names) && Usable(names)
    ensures h.size > 0 && left == InBucket(names, h.size, key % h.size) && BucketOk(h.mem, elt, left)
    ensures elt == EMPTY <==> left == []
    ensures Usable(left) && forall k :: 0 <= k < |left| ==> left[k].present
  {
    var b := key % h.size;
    BucketUsable(names, h.size, b);
    elt, left := h.buckets[b], InBucket(names, h.size, b);
  }

  function Value(mem: seq<Cell>, at: int): int
  {
    if 0 <= at < |mem| && mem[at].Part? then mem[at].value else NULL
  }

  function LenAt(mem: seq<Cell>, at: int): int
    requires 0 <= at && at + PTR < |mem|
  {
    if mem[at + PTR].Len? then mem[at + PTR].n else 0
  }

  lemma {:induction false} TailUsable(left: seq<Name>)
    requires left != [] && Usable(left)
    ensures Usable(left[1..])
  {
  }

  lemma {:induction false} NothingFound(name: string)
    ensures Lookup([], name) == NULL
  {
  }

  lemma {:induction false} SameName(key: string, name: string)
    ensures Lower(key) == Lower(name) <==>
      |key| == |name| && forall j :: 0 <= j < |name| ==> Tolower(name[j]) == Tolower(key[j])
  {
    if Lower(key) == Lower(name) {
      assert forall j :: 0 <= j < |name| ==> Lower(key)[j] == Lower(name)[j];
    }
  }

  lemma {:induction false} LookupStep(left: seq<Name>, name: string)
    requires left != [] && left[0].present
    ensures Lookup(left, name) == if Lower(left[0].key) == Lower(name) then left[0].value else Lookup(left[1..], name)
  {
  }

  /** Where the elements end the reader finds NULL, before that a value. */
  lemma {:induction false} EndRead(mem: seq<Cell>, at: int, left: seq<Name>)
    requires HoldsAt(mem, at, Packed(left) + Ptr(NULL)) && Usable(left)
    requires forall k :: 0 <= k < |left| ==> left[k].present
    ensures Value(mem, at) == if left == [] then NULL else left[0].value
    ensures 0 <= at < |mem| && (left != [] ==> at + PTR < |mem| && left[0].value != NULL)
  {
    if left == [] {
      assert Packed(left) + Ptr(NULL) == Ptr(NULL);
      assert mem[at..at + PTR][0] == Ptr(NULL)[0] == Part(NULL, 0);
    } else {
      FirstRead(mem, at, left);
    }
  }

  lemma {:induction false} FirstElement(left: seq<Name>)
    requires left != []
    ensures Packed(left) + Ptr(NULL) == Element(left[0].value, left[0].key) + (Packed(left[1..]) + Ptr(NULL))
  {
    hide Element, Ptr;
    var e, p, z := Element(left[0].value, left[0].key), Packed(left[1..]), Ptr(NULL);
    assert (e + p) + z == e + (p + z);
  }

  lemma {:induction false} FirstRead(mem: seq<Cell>, at: int, left: seq<Name>)
    requires left != [] && HoldsAt(mem, at, Packed(left) + Ptr(NULL)) && Usable(left) && left[0].present
    ensures 0 <= at && at + PTR + 1 + |left[0].key| <= |mem| && Value(mem, at) == left[0].value
    ensures LenAt(mem, at) == |left[0].key|
    ensures forall i :: 0 <= i < |left[0].key| ==> mem[at + PTR + 1 + i] == Chr(Tolower(left[0].key[i]))
    ensures left[0].value != NULL
  {
    hide Element, Packed, HoldsAt, EltSize, Ptr;
    FirstElement(left);
    HoldsSplit(mem, at, Element(left[0].value, left[0].key), Packed(left[1..]) + Ptr(NULL));
    ElementRead(mem, at, left[0].value, left[0].key);
  }

  /** The reader's alignment jump is the writer's element size. */
  lemma {:induction false} Onward(mem: seq<Cell>, at: int, left: seq<Name>)
    requires left != [] && at % PTR == 0 && HoldsAt(mem, at, Packed(left) + Ptr(NULL))
    ensures var next := RoundUp(at + PTR + 1 + |left[0].key|, PTR);
      next == at + EltSize(|left[0].key|) && next % PTR == 0 && HoldsAt(mem, next, Packed(left[1..]) + Ptr(NULL))
  {
    hide Element, Packed, HoldsAt, Ptr;
    FirstElement(left);
    HoldsSplit(mem, at, Element(left[0].value, left[0].key), Packed(left[1..]) + Ptr(NULL));
    ElementRead(mem, at, left[0].value, left[0].key);
    AlignShift(at + PTR, 1 + |left[0].key|);
  }

  /** yf_hash_key: the running product wraps like a machine word. */
  function HashKey(s: string): nat {
    if s == "" then 0 else (HashKey(s[..|s| - 1]) * 31 + s[|s| - 1] as int) % WORD
  }

  function Power(n: nat): nat { if n == 0 then 1 else 31 * Power(n - 1) }

  /** The characters as the digits of a number to base 31, the first one the highest. */
  function Digits(s: string): nat {
    if s == "" then 0 else s[0] as int * Power(|s| - 1) + Digits(s[1..])
  }

  lemma {:induction false} DigitsLast(s: string, c: char)
    ensures Digits(s + [c]) == Digits(s) * 31 + c as int
  {
    if s == "" {
      assert s + [c] == [c] && Power(0) == 1 && Digits([c][1..]) == 0;
    } else {
      DigitsLast(s[1..], c);
      assert (s + [c])[1..] == s[1..] + [c];
      assert Power(|s|) == 31 * Power(|s| - 1);
    }
  }

  /** yf_hash_key computes that number, as far as a machine word goes. */
  lemma {:induction false} HashKeyIs(s: string)
    ensures HashKey(s) == Digits(s) % WORD
  {
    if s != "" {
      var n := |s| - 1;
      HashKeyIs(s[..n]);
      DigitsLast(s[..n], s[n]);
      assert s[..n] + [s[n]] == s;
      WrapOnce(Digits(s[..n]), s[n] as int);
    }
  }

  lemma WrapOnce(x: nat, c: nat)
    ensures (x % WORD * 31 + c) % WORD == (x * 31 + c) % WORD
  {
    var q, m := x / WORD, x % WORD;
    assert x * 31 + c == (31 * q) * WORD + (m * 31 + c);
    var y := m * 31 + c;
    DivIs(x * 31 + c, WORD, 31 * q + y / WORD, y % WORD);
  }

  /** yf_hash_key_lc is yf_hash_key of the lower-case name. */
  method HashKeyLc(s: string) returns (key: nat)
    ensures key == HashKey(Lower(s))
  {
    var i := 0;
    key := 0;
    while i < |s|
      invariant i <= |s| && key == HashKey(Lower(s)[..i])
    {
      assert Lower(s)[..i + 1][..i] == Lower(s)[..i];
      key := (key * 31 + Tolower(s[i]) as int) % WORD;
      i := i + 1;
    }
    assert Lower(s)[..i] == Lower(s);
  }

  /** Looking a name up under its own hash: the map that ignores case. */
  method Get(h: Hash, name: string, ghost names: seq<Name>) returns (value: int)
    requires Built(h, names) && Usable(names)
    requires forall k :: 0 <= k < |names| && names[k].present ==> names[k].hash == HashKey(Lower(names[k].key))
    ensures value == Lookup(names, name)
  {
    var key := HashKeyLc(name);
    value := Find(h, key, name, names);
  }

  // ----- building -----

  /** Writing behind what a place holds. */
  lemma {:induction false} PutBehind(mem: seq<Cell>, at: int, e: seq<Cell>, d: seq<Cell>)
    requires HoldsAt(mem, at, e) && at + |e| + |d| <= |mem|
    ensures HoldsAt(Put(mem, at + |e|, d), at, e + d)
  {
    var m := Put(mem, at + |e|, d);
    assert m[at..at + |e|] == mem[at..at + |e|];
    assert m[at + |e|..at + |e| + |d|] == d;
    HoldsSplit(m, at, e, d);
  }

  /** Writing elsewhere. */
  lemma {:induction false} PutAway(mem: seq<Cell>, x: int, e: seq<Cell>, at: int, d: seq<Cell>)
    requires HoldsAt(mem, x, e) && 0 <= at && at + |d| <= |mem| && (at + |d| <= x || x + |e| <= at)
    ensures HoldsAt(Put(mem, at, d), x, e)
  {
    var m := Put(mem, at, d);
    assert forall k :: x <= k < x + |e| ==> m[k] == mem[k];
    assert m[x..x + |e|] == mem[x..x + |e|];
  }

  ghost predicate Fits(names: seq<Name>, size: nat, room: nat)
    requires size > 0
  {
    forall b :: 0 <= b < size ==> SizeOf(InBucket(names, size, b)) <= room
  }

  lemma {:induction false} OneMore(names: seq<Name>, n: nat, size: nat, b: nat)
    requires size > 0 && n < |names|
    ensures InBucket(names[..n + 1], size, b)
         == InBucket(names[..n], size, b) + if names[n].present && names[n].hash % size == b then [names[n]] else []
    ensures SizeOf(InBucket(names[..n + 1], size, b)) == SizeOf(InBucket(names[..n], size, b))
      + if names[n].present && names[n].hash % size == b then EltSize(|names[n].key|) else 0
  {
    assert names[..n + 1][..n] == names[..n];
    assert InBucket(names[..n], size, b) + [] == InBucket(names[..n], size, b);
    if names[n].present && names[n].hash % size == b {
      PackedNone();
      PackedCat(InBucket(names[..n], size, b), [names[n]]);
      PackedStep(names[n], []);
      assert [names[n]] + [] == [names[n]];
    }
  }

  /** A bucket of the first names is no larger than the bucket of all. */
  lemma {:induction false} Grows(names: seq<Name>, n: nat, size: nat, b: nat)
    requires size > 0 && n <= |names|
    ensures SizeOf(InBucket(names[..n], size, b)) <= SizeOf(InBucket(names, size, b))
    ensures InBucket(names, size, b) == [] ==> InBucket(names[..n], size, b) == []
    decreases |names| - n
  {
    if n == |names| {
      assert names[..n] == names;
    } else {
      OneMore(names, n, size, b);
      Grows(names, n + 1, size, b);
    }
  }

  lemma {:induction false} NoneYet(names: seq<Name>, size: nat)
    requires size > 0
    ensures forall b ::
      0 <= b < size ==> InBucket(names[..0], size, b) == [] && SizeOf(InBucket(names[..0], size, b)) == 0
  {
    assert names[..0] == [];
    PackedNone();
  }

  /** What the test sees: the sums of every first part of the names, in 16 bits. */
  ghost predicate SeemsToFit(names: seq<Name>, size: nat, room: nat)
    requires size > 0
  {
    forall n, b :: 0 <= n <= |names| && 0 <= b < size ==> SizeOf(InBucket(names[..n], size, b)) % U16 <= room % U16
  }

  /** No sum that stays within the room wraps, nor does one that has just left it. */
  ghost predicate Narrow(names: seq<Name>, room: nat) {
    room < U16 && forall k :: 0 <= k < |names| && names[k].present ==> room + EltSize(|names[k].key|) < U16
  }

  /** Without a wrap the test is right. */
  lemma {:induction false} SeemsRight(names: seq<Name>, size: nat, room: nat)
    requires size > 0 && Narrow(names, room)
    ensures SeemsToFit(names, size, room) <==> Fits(names, size, room)
  {
    hide InBucket, SizeOf, EltSize;
    assert names[..|names|] == names;
    if SeemsToFit(names, size, room) {
      forall b | 0 <= b < size
        ensures SizeOf(InBucket(names, size, b)) <= room
      {
        StaysNarrow(names, size, room, |names|, b);
      }
    }
    if Fits(names, size, room) {
      forall n, b | 0 <= n <= |names| && 0 <= b < size
        ensures SizeOf(InBucket(names[..n], size, b)) % U16 <= room % U16
      {
        Grows(names, n, size, b);
        SizeNat(InBucket(names[..n], size, b));
      }
    }
  }

  lemma {:induction false} StaysNarrow(names: seq<Name>, size: nat, room: nat, n: nat, b: nat)
    requires size > 0 && Narrow(names, room) && SeemsToFit(names, size, room) && n <= |names| && b < size
    ensures SizeOf(InBucket(names[..n], size, b)) <= room
  {
    hide InBucket, SizeOf, EltSize;
    if n == 0 {
      NoneYet(names, size);
    } else {
      StaysNarrow(names, size, room, n - 1, b);
      OneMore(names, n - 1, size, b);
      SizeNat(InBucket(names[..n], size, b));
      NoWrap(SizeOf(InBucket(names[..n], size, b)), room);
    }
  }

  lemma NoWrap(x: int, room: nat)
    requires 0 <= x < U16 && room < U16
    ensures x % U16 <= room % U16 <==> x <= room
  {
  }

  /** 4078 names of 16 bytes, one of 24 and one of 264: a sum of 65272, then one of 2^16. */
  function Overflowing(): seq<Name> {
    seq(4078, _ => Name("", true, 0, 1)) + [Name(seq(8, _ => 'a'), true, 0, 1), Name(seq(255, _ => 'a'), true, 0, 1)]
  }

  lemma OverflowingNames()
    ensures var names := Overflowing();
      && |names| == 4080 && |names[4078].key| == 8 && |names[4079].key| == 255
      && (forall k :: 0 <= k < 4078 ==> names[k].key == "")
      && forall k :: 0 <= k < 4080 ==> names[k].present && |names[k].key| < U8
  {
  }

  lemma {:induction false} EmptyNames(names: seq<Name>, n: nat)
    requires n <= |names| && forall k :: 0 <= k < n ==> names[k].present && names[k].key == ""
    ensures SizeOf(InBucket(names[..n], 1, 0)) == 16 * n
  {
    hide InBucket, SizeOf;
    if n == 0 {
      NoneYet(names, 1);
    } else {
      EmptyNames(names, n - 1);
      OneMore(names, n - 1, 1, 0);
      assert EltSize(0) == 16;
    }
  }

  /** The sums of those names in the one bucket of a table of size 1. */
  lemma {:induction false} OverflowingSums(n: nat)
    requires n <= 4080
    ensures SizeOf(InBucket(Overflowing()[..n], 1, 0)) == if n <= 4078 then 16 * n else if n == 4079 then 65272 else U16
  {
    hide InBucket, SizeOf, Overflowing;
    var names := Overflowing();
    OverflowingNames();
    if n <= 4078 {
      EmptyNames(names, n);
    } else {
      OverflowingSums(n - 1);
      OneMore(names, n - 1, 1, 0);
      assert EltSize(8) == 24 && EltSize(255) == 264;
    }
  }

  /** They seem to fit in every room from 65272 on, and fit in none. */
  lemma {:induction false} WrapsAround(room: nat)
    requires 65272 <= room < U16
    ensures SeemsToFit(Overflowing(), 1, room) && !Fits(Overflowing(), 1, room)
  {
    hide InBucket, SizeOf, Overflowing;
    var names := Overflowing();
    OverflowingNames();
    assert names[..4080] == names;
    OverflowingSums(4080);
    forall n, b | 0 <= n <= |names| && 0 <= b < 1
      ensures SizeOf(InBucket(names[..n], 1, b)) % U16 <= room % U16
    {
      OverflowingSums(n);
    }
  }

  ghost predicate Short(names: seq<Name>) { forall k :: 0 <= k < |names| ==> |names[k].key| < U8 }

  ghost predicate TestRight(room: nat) {
    forall names, size: nat :: size > 0 && Short(names) ==> (SeemsToFit(names, size, room) <==> Fits(names, size, room))
  }

  lemma {:induction false} ShortNarrow(names: seq<Name>, room: nat)
    requires Short(names) && room < 65272
    ensures Narrow(names, room)
  {
    forall k | 0 <= k < |names|
      ensures EltSize(|names[k].key|) <= 264
    {
      RoundUpOrder(|names[k].key| + 1, 256, PTR);
    }
  }

  /** The test in 16 bits is right for all lists of names if and only if the room is below 65272. */
  lemma {:induction false} TestExact(room: nat)
    ensures TestRight(room) <==> room < 65272
  {
    hide Fits, SeemsToFit, Overflowing, Narrow;
    if room < 65272 {
      forall names, size: nat | size > 0 && Short(names)
        ensures SeemsToFit(names, size, room) <==> Fits(names, size, room)
      {
        ShortNarrow(names, room);
        SeemsRight(names, size, room);
      }
    } else if room < U16 {
      OverflowingNames();
      assert Short(Overflowing());
      WrapsAround(room);
    } else {
      var names := WrongAnyway(room);
    }
  }

  /** A room that has lost its upper bits: too small, or too large ever to be left. */
  lemma {:induction false} WrongAnyway(room: nat) returns (names: seq<Name>)
    requires room >= U16
    ensures Short(names) && (SeemsToFit(names, 1, room) <==> !Fits(names, 1, room))
  {
    hide InBucket, SizeOf;
    var n := if room % U16 < 65520 then room % U16 / 16 + 1 else room / 16 + 1;
    names := seq(n, _ => Name("", true, 0, 1));
    assert names[..n] == names;
    EmptyNames(names, n);
    assert SizeOf(InBucket(names, 1, 0)) == 16 * n;
    if room % U16 < 65520 {
      assert SizeOf(InBucket(names[..n], 1, 0)) % U16 > room % U16;
      assert forall b :: 0 <= b < 1 ==> SizeOf(InBucket(names, 1, b)) <= room;
    } else {
      forall m, b | 0 <= m <= |names| && 0 <= b < 1
        ensures SizeOf(InBucket(names[..m], 1, b)) % U16 <= room % U16
      {
        EmptyNames(names, m);
        Sixteens(m);
      }
    }
  }

  lemma Sixteens(m: nat)
    ensures 16 * m % U16 <= 65520
  {
    var k := m % 4096;
    assert 16 * m == U16 * (m / 4096) + 16 * k;
    DivIs(16 * m, U16, m / 4096, 16 * k);
  }

  /** No size wraps where the memory is laid out: each bucket has room for its names and the NULL
      value at their end, also rounded up to whole cache lines. */
  predicate Unwrapped(names: seq<Name>, size: nat, line: nat)
    requires size > 0 && line > 0
  {
    forall b ::
      0 <= b < size && InBucket(names, size, b) != [] ==> RoundUp(PTR + SizeOf(InBucket(names, size, b)), line) < U16
  }

  ghost predicate LayoutRight(room: nat, line: nat)
    requires line > 0
  {
    forall names, size: nat ::
      size > 0 && Short(names) && SeemsToFit(names, size, room) ==> Unwrapped(names, size, line)
  }

  /** With cache lines of up to 256 bytes, whatever seems to fit is laid out without a wrap if and only
      if the room, in 16 bits, is below 65272. */
  lemma {:induction false} LayoutExact(room: nat, line: nat)
    requires line > 0 && 256 % line == 0
    ensures LayoutRight(room, line) <==> room % U16 < 65272
  {
    hide SeemsToFit, Overflowing, Unwrapped;
    if room % U16 < 65272 {
      forall names, size: nat | size > 0 && Short(names) && SeemsToFit(names, size, room)
        ensures Unwrapped(names, size, line)
      {
        SeemsUnwrapped(names, size, room, line);
      }
    } else {
      OverflowingNames();
      assert Short(Overflowing());
      OverflowingWraps(room, line);
    }
  }

  lemma {:induction false} SeemsLow(names: seq<Name>, size: nat, room: nat)
    requires size > 0
    ensures SeemsToFit(names, size, room) <==> SeemsToFit(names, size, room % U16)
  {
    hide InBucket, SizeOf;
    assert room % U16 % U16 == room % U16;
  }

  lemma {:induction false} SeemsUnwrapped(names: seq<Name>, size: nat, room: nat, line: nat)
    requires size > 0 && line > 0 && 256 % line == 0 && room % U16 < 65272
    requires Short(names) && SeemsToFit(names, size, room)
    ensures Unwrapped(names, size, line)
  {
    hide InBucket, SizeOf, RoundUp;
    SeemsLow(names, size, room);
    ShortNarrow(names, room % U16);
    SeemsRight(names, size, room % U16);
    forall b | 0 <= b < size
      ensures RoundUp(PTR + SizeOf(InBucket(names, size, b)), line) < U16
    {
      SizeNat(InBucket(names, size, b));
      RoundUpOrder(PTR + SizeOf(InBucket(names, size, b)), 65280, line);
      LinesTo(line);
    }
  }

  lemma LinesTo(line: nat)
    requires line > 0 && 256 % line == 0
    ensures RoundUp(65280, line) == 65280
  {
    var k := 256 / line;
    assert 256 == k * line;
    assert 65280 == 255 * k * line;
    DivIs(65280 + line - 1, line, 255 * k, line - 1);
  }

  lemma {:induction false} OverflowingWraps(room: nat, line: nat)
    requires line > 0 && room % U16 >= 65272
    ensures SeemsToFit(Overflowing(), 1, room) && !Unwrapped(Overflowing(), 1, line)
  {
    hide InBucket, SizeOf, Overflowing, Fits;
    OverflowingNames();
    WrapsAround(room % U16);
    SeemsLow(Overflowing(), 1, room);
    OverflowingSums(4080);
    assert Overflowing()[..4080] == Overflowing();
    EmptyBucket(InBucket(Overflowing(), 1, 0));
  }

  /** Lines 85-107: whether no bucket of a table of `size` is seen to grow beyond `room`. */
  method TryFit(names: seq<Name>, size: nat, room: nat) returns (fits: bool)
    requires size > 0
    ensures fits <==> SeemsToFit(names, size, room)
  {
    hide InBucket, SizeOf, EltSize;
    var test, n := seq(size, _ => 0), 0;
    NoneYet(names, size);
    while n < |names|
      invariant n <= |names| && |test| == size
      invariant forall b :: 0 <= b < size ==> test[b] == SizeOf(InBucket(names[..n], size, b)) % U16
      invariant forall m, b ::
        0 <= m <= n && 0 <= b < size ==> SizeOf(InBucket(names[..m], size, b)) % U16 <= room % U16
    {
      forall b | 0 <= b < size
        ensures SizeOf(InBucket(names[..n + 1], size, b)) == SizeOf(InBucket(names[..n], size, b))
          + if names[n].present && names[n].hash % size == b then EltSize(|names[n].key|) else 0
      {
        OneMore(names, n, size, b);
      }
      if names[n].present {
        var key := names[n].hash % size;
        test := test[key := (test[key] + EltSize(|names[n].key|)) % U16];
        if test[key] > room % U16 {
          return false;
        }
      }
      n := n + 1;
    }
    fits := true;
  }

  /** Lines 75-110: the first table size from `start` on that seems to fit. */
  method FindSize(names: seq<Name>, start: nat, maxSize: nat, room: nat) returns (found: bool, size: nat)
    requires start > 0
    ensures found ==> start <= size < maxSize && SeemsToFit(names, size, room)
    ensures var upTo := if found then size else maxSize;
      forall k: nat {:trigger SeemsToFit(names, k, room)} :: start <= k < upTo ==> !SeemsToFit(names, k, room)
  {
    hide SeemsToFit;
    size := start;
    while size < maxSize
      invariant size >= start && (size <= maxSize || size == start)
      invariant forall k: nat :: start <= k < size && k < maxSize ==> !SeemsToFit(names, k, room)
    {
      var fits := TryFit(names, size, room);
      if fits {
        return true, size;
      }
      size := size + 1;
    }
    found := false;
  }

  /** Buckets one behind the other, each with room for its names and the NULL value at their end. */
  ghost predicate LaidOut(names: seq<Name>, size: nat, buckets: seq<int>, caps: seq<nat>, k: nat, end: int)
    requires size > 0
  {
    && |buckets| == |caps| == size && k <= size && 0 <= end && end % PTR == 0
    && (forall b :: 0 <= b < size && InBucket(names, size, b) == [] ==> buckets[b] == EMPTY)
    && (forall b :: 0 <= b < k && InBucket(names, size, b) != [] ==>
          && 0 <= buckets[b] && buckets[b] % PTR == 0
          && caps[b] >= SizeOf(InBucket(names, size, b)) + PTR && buckets[b] + caps[b] <= end)
    && (forall b, c :: 0 <= b < c < k && InBucket(names, size, b) != [] && InBucket(names, size, c) != [] ==>
          buckets[b] + caps[b] <= buckets[c])
  }

  /** What the buckets of the first `n` names demand. */
  ghost predicate Demanded(test: seq<nat>, names: seq<Name>, n: nat, size: nat)
    requires size > 0 && n <= |names|
  {
    |test| == size && forall b :: 0 <= b < size ==> test[b] == (PTR + SizeOf(InBucket(names[..n], size, b))) % U16
  }

  lemma {:induction false} DemandedOne(test: seq<nat>, names: seq<Name>, n: nat, size: nat)
    requires size > 0 && n < |names| && Demanded(test, names, n, size)
    ensures |test| == size
    ensures !names[n].present ==> Demanded(test, names, n + 1, size)
    ensures names[n].present ==> var key := names[n].hash % size;
      Demanded(test[key := (test[key] + EltSize(|names[n].key|)) % U16], names, n + 1, size)
  {
    hide InBucket, SizeOf, EltSize;
    forall b | 0 <= b < size
      ensures SizeOf(InBucket(names[..n + 1], size, b)) == SizeOf(InBucket(names[..n], size, b))
        + if names[n].present && names[n].hash % size == b then EltSize(|names[n].key|) else 0
    {
      OneMore(names, n, size, b);
    }
  }

  /** Lines 123-137: what each bucket takes, its NULL value included. */
  method Demands(names: seq<Name>, size: nat) returns (test: seq<nat>)
    requires size > 0
    ensures |test| == size && forall b :: 0 <= b < size ==> test[b] == (PTR + SizeOf(InBucket(names, size, b))) % U16
  {
    hide InBucket, SizeOf, EltSize;
    var n := 0;
    test := seq(size, _ => PTR);
    NoneYet(names, size);
    while n < |names|
      invariant n <= |names| && Demanded(test, names, n, size)
    {
      DemandedOne(test, names, n, size);
      if names[n].present {
        var key := names[n].hash % size;
        test := test[key := (test[key] + EltSize(|names[n].key|)) % U16];
      }
      n := n + 1;
    }
    assert names[..n] == names;
  }

  /** How the loops place what each bucket demands. */
  ghost predicate PlacedTo(test: seq<nat>, line: nat, buckets: seq<int>, caps: seq<nat>, i: nat, end: int)
    requires line > 0
  {
    && |buckets| == |caps| == |test| && i <= |test| && 0 <= end && end % PTR == 0
    && (forall b :: 0 <= b < |test| && (b >= i || test[b] == PTR) ==> buckets[b] == EMPTY && caps[b] == 0)
    && (forall b :: 0 <= b < i && test[b] != PTR ==>
          && 0 <= buckets[b] && buckets[b] % PTR == 0
          && caps[b] == RoundUp(test[b], line) % U16 && buckets[b] + caps[b] <= end)
    && (forall b, c :: 0 <= b < c < i && test[b] != PTR && test[c] != PTR ==> buckets[b] + caps[b] <= buckets[c])
  }

  /** Lines 139-185: capacities, rounded up to whole cache lines, and the place of every bucket. */
  method LayOut(names: seq<Name>, size: nat, line: nat) returns (buckets: seq<int>, caps: seq<nat>, end: nat)
    requires size > 0 && 0 < line < U16 && line % PTR == 0
    ensures LaidOut(names, size, buckets, caps, size, end) <==> Unwrapped(names, size, line)
    ensures |caps| == size && forall b :: 0 <= b < size ==> caps[b] < U16
  {
    hide InBucket, SizeOf, EltSize, RoundUp, LaidOut, Unwrapped, PlacedTo;
    var test := Demands(names, size);
    buckets, caps, end := seq(size, _ => EMPTY), seq(size, _ => 0), 0;
    var i := 0;
    NothingPlaced(test, line, buckets, caps);
    while i < size
      invariant i <= size && |buckets| == |caps| == size && PlacedTo(test, line, buckets, caps, i, end)
    {
      PlacedNext(test, line, buckets, caps, i, end);
      if test[i] != PTR {
        caps := caps[i := RoundUp(test[i], line) % U16];
        buckets := buckets[i := end];
        end := end + caps[i];
      }
      i := i + 1;
    }
    CapsNarrow(test, line, buckets, caps, end);
    RightPlaces(names, size, line, test, buckets, caps, end);
  }

  lemma NothingPlaced(test: seq<nat>, line: nat, buckets: seq<int>, caps: seq<nat>)
    requires line > 0 && |buckets| == |caps| == |test|
    requires forall b :: 0 <= b < |test| ==> buckets[b] == EMPTY && caps[b] == 0
    ensures PlacedTo(test, line, buckets, caps, 0, 0)
  {
  }

  /** The next bucket, behind all before it, or none for an empty one. */
  lemma PlacedNext(test: seq<nat>, line: nat, buckets: seq<int>, caps: seq<nat>, i: nat, end: nat)
    requires line > 0 && line % PTR == 0 && i < |test| && PlacedTo(test, line, buckets, caps, i, end)
    ensures |buckets| == |caps| == |test|
    ensures test[i] == PTR ==> PlacedTo(test, line, buckets, caps, i + 1, end)
    ensures test[i] != PTR ==> var cap := RoundUp(test[i], line) % U16;
      PlacedTo(test, line, buckets[i := end], caps[i := cap], i + 1, end + cap)
  {
    hide RoundUp;
    if test[i] != PTR {
      var cap := RoundUp(test[i], line) % U16;
      LineAligned(test[i], line);
      AlignedMod(RoundUp(test[i], line));
      PlacedOne(test, line, buckets, caps, i, end, cap);
    }
  }

  lemma AlignedMod(x: nat)
    requires x % PTR == 0
    ensures x % U16 % PTR == 0
  {
  }

  lemma PlacedOne(test: seq<nat>, line: nat, buckets: seq<int>, caps: seq<nat>, i: nat, end: nat, cap: nat)
    requires line > 0 && i < |test| && PlacedTo(test, line, buckets, caps, i, end)
    requires test[i] != PTR && cap == RoundUp(test[i], line) % U16 && cap % PTR == 0
    ensures PlacedTo(test, line, buckets[i := end], caps[i := cap], i + 1, end + cap)
  {
    hide RoundUp;
    var buckets', caps' := buckets[i := end], caps[i := cap];
    forall b | 0 <= b < i && test[b] != PTR
      ensures buckets'[b] == buckets[b] && caps'[b] == caps[b] && buckets[b] + caps[b] <= end
    {
    }
  }

  lemma CapsNarrow(test: seq<nat>, line: nat, buckets: seq<int>, caps: seq<nat>, end: nat)
    requires line > 0 && PlacedTo(test, line, buckets, caps, |test|, end)
    ensures forall b :: 0 <= b < |test| ==> caps[b] < U16
  {
    hide RoundUp;
  }

  /** The demand of one bucket, in 16 bits, and the capacity that comes of it. */
  lemma CapIs(sum: nat, line: nat)
    requires 0 < line < U16
    ensures var cap := RoundUp((PTR + sum) % U16, line) % U16;
      cap >= sum + PTR <==> RoundUp(PTR + sum, line) < U16
    ensures RoundUp(PTR + sum, line) < U16 ==> PTR + sum < U16
  {
    hide RoundUp;
    var x := PTR + sum;
    if x < U16 {
      DivIs(x, U16, 0, x);
      var r := RoundUp(x, line);
      if r < U16 {
        DivIs(r, U16, 0, r);
      } else {
        DivIs(r, U16, 1, r - U16);
      }
    }
  }

  lemma {:induction false} RightPlaces(names: seq<Name>, size: nat, line: nat, test: seq<nat>,
                                       buckets: seq<int>, caps: seq<nat>, end: nat)
    requires size > 0 && 0 < line < U16 && |test| == size && PlacedTo(test, line, buckets, caps, size, end)
    requires forall b :: 0 <= b < size ==> test[b] == (PTR + SizeOf(InBucket(names, size, b))) % U16
    ensures LaidOut(names, size, buckets, caps, size, end) <==> Unwrapped(names, size, line)
  {
    hide InBucket, SizeOf, RoundUp;
    if Unwrapped(names, size, line) {
      PlacesRight(names, size, line, test, buckets, caps, end);
    }
    if LaidOut(names, size, buckets, caps, size, end) {
      forall b | 0 <= b < size && InBucket(names, size, b) != []
        ensures RoundUp(PTR + SizeOf(InBucket(names, size, b)), line) < U16
      {
        assert caps[b] == RoundUp(test[b], line) % U16;
        CapIs(SizeOf(InBucket(names, size, b)), line);
      }
    }
  }

  lemma {:induction false} PlacesRight(names: seq<Name>, size: nat, line: nat, test: seq<nat>,
                                       buckets: seq<int>, caps: seq<nat>, end: nat)
    requires size > 0 && 0 < line < U16 && |test| == size && PlacedTo(test, line, buckets, caps, size, end)
    requires forall b :: 0 <= b < size ==> test[b] == (PTR + SizeOf(InBucket(names, size, b))) % U16
    requires Unwrapped(names, size, line)
    ensures LaidOut(names, size, buckets, caps, size, end)
  {
    hide InBucket, SizeOf, RoundUp;
    forall b | 0 <= b < size
      ensures InBucket(names, size, b) == [] <==> test[b] == PTR
      ensures test[b] != PTR ==> caps[b] >= SizeOf(InBucket(names, size, b)) + PTR
    {
      EmptyBucket(InBucket(names, size, b));
      SizeNat(InBucket(names, size, b));
      CapIs(SizeOf(InBucket(names, size, b)), line);
      assert test[b] != PTR ==> caps[b] == RoundUp(test[b], line) % U16;
    }
    InPlaces(names, size, line, test, buckets, caps, end);
  }

  lemma {:induction false} InPlaces(names: seq<Name>, size: nat, line: nat, test: seq<nat>,
                                    buckets: seq<int>, caps: seq<nat>, end: nat)
    requires size > 0 && line > 0 && |test| == size && PlacedTo(test, line, buckets, caps, size, end)
    requires forall b :: 0 <= b < size ==> (InBucket(names, size, b) == [] <==> test[b] == PTR)
    requires forall b :: 0 <= b < size && test[b] != PTR ==> caps[b] >= SizeOf(InBucket(names, size, b)) + PTR
    ensures LaidOut(names, size, buckets, caps, size, end)
  {
    hide InBucket, SizeOf, RoundUp;
  }

  lemma {:induction false} EmptyBucket(names: seq<Name>)
    ensures SizeOf(names) == 0 <==> names == []
  {
  }

  lemma {:induction false} LineAligned(x: nat, line: nat)
    requires line > 0 && line % PTR == 0
    ensures RoundUp(x, line) % PTR == 0
  {
    var q, m := (x + line - 1) / line, line / PTR;
    assert line == m * PTR;
    assert q * line == (q * m) * PTR;
    DivIs(q * line, PTR, q * m, 0);
  }

  /** Each bucket holds the elements of those of its names that are among the first `n`. */
  ghost predicate FilledTo(mem: seq<Cell>, names: seq<Name>, size: nat, buckets: seq<int>, n: nat)
    requires size > 0 && |buckets| == size && n <= |names|
  {
    forall b :: 0 <= b < size && InBucket(names, size, b) != [] ==>
      HoldsAt(mem, buckets[b], Packed(InBucket(names[..n], size, b)))
  }

  lemma {:induction false} ElementPut(mem: seq<Cell>, names: seq<Name>, size: nat, buckets: seq<int>, caps: seq<nat>,
                                      n: nat)
    requires size > 0 && LaidOut(names, size, buckets, caps, size, |mem|) && n < |names| && names[n].present
    requires FilledTo(mem, names, size, buckets, n)
    ensures var key := names[n].hash % size;
      var at := buckets[key] + SizeOf(InBucket(names[..n], size, key));
      && 0 <= at && at + EltSize(|names[n].key|) <= |mem|
      && FilledTo(Put(mem, at, Element(names[n].value, names[n].key)), names, size, buckets, n + 1)
  {
    hide HoldsAt, Element, EltSize, Packed, SizeOf, InBucket, Put;
    var key, d := names[n].hash % size, Element(names[n].value, names[n].key);
    OneMore(names, n, size, key);
    Grows(names, n + 1, size, key);
    var old', at := InBucket(names[..n], size, key), buckets[key] + SizeOf(InBucket(names[..n], size, key));
    SizeNat(old');
    NotNone(names, n, size);
    PackedSize(old');
    forall b | 0 <= b < size && InBucket(names, size, b) != []
      ensures 0 <= at && at + |d| <= |mem|
      ensures HoldsAt(Put(mem, at, d), buckets[b], Packed(InBucket(names[..n + 1], size, b)))
    {
      OneMore(names, n, size, b);
      if b == key {
        PutBehind(mem, buckets[b], Packed(old'), d);
        PackedCat(old', [names[n]]);
        PackedStep(names[n], []);
        PackedNone();
        assert [names[n]] + [] == [names[n]] && d + [] == d;
      } else {
        var e := InBucket(names[..n], size, b);
        PackedSize(e);
        SizeNat(e);
        Grows(names, n, size, b);
        PutAway(mem, buckets[b], Packed(e), at, d);
        assert e + [] == e;
      }
    }
  }

  lemma {:induction false} SizeNat(names: seq<Name>)
    ensures SizeOf(names) >= 0
  {
  }

  lemma {:induction false} NotNone(names: seq<Name>, n: nat, size: nat)
    requires size > 0 && n < |names| && names[n].present
    ensures InBucket(names, size, names[n].hash % size) != []
  {
    OneMore(names, n, size, names[n].hash % size);
    Grows(names, n + 1, size, names[n].hash % size);
  }

  lemma {:induction false} EndPut(mem: seq<Cell>, names: seq<Name>, size: nat, buckets: seq<int>, caps: seq<nat>,
                                  i: nat)
    requires size > 0 && LaidOut(names, size, buckets, caps, size, |mem|) && i < size && InBucket(names, size, i) != []
    requires FilledTo(mem, names, size, buckets, |names|)
    requires forall b :: 0 <= b < i ==> BucketOk(mem, buckets[b], InBucket(names, size, b))
    ensures var at := buckets[i] + SizeOf(InBucket(names, size, i));
      && 0 <= at && at + PTR <= |mem|
      && FilledTo(Put(mem, at, Ptr(NULL)), names, size, buckets, |names|)
      && forall b :: 0 <= b <= i ==> BucketOk(Put(mem, at, Ptr(NULL)), buckets[b], InBucket(names, size, b))
  {
    hide HoldsAt, Packed, SizeOf, InBucket, Put, Ptr;
    assert names[..|names|] == names;
    var at, d := buckets[i] + SizeOf(InBucket(names, size, i)), Ptr(NULL);
    SizeNat(InBucket(names, size, i));
    forall b | 0 <= b < size && InBucket(names, size, b) != []
      ensures 0 <= at && at + |d| <= |mem| && HoldsAt(Put(mem, at, d), buckets[b], Packed(InBucket(names, size, b)))
      ensures b <= i ==> HoldsAt(Put(mem, at, d), buckets[b], Packed(InBucket(names, size, b)) + Ptr(NULL))
    {
      var e := Packed(InBucket(names, size, b));
      PackedSize(InBucket(names, size, b));
      SizeNat(InBucket(names, size, b));
      if b == i {
        PutBehind(mem, buckets[b], e, d);
        HoldsSplit(Put(mem, at, d), buckets[b], e, d);
      } else {
        PutAway(mem, buckets[b], e, at, d);
        if b < i {
          PutAway(mem, buckets[b], e + Ptr(NULL), at, d);
        }
      }
    }
  }

  ghost predicate SumsFit(names: seq<Name>, size: nat)
    requires size > 0
  {
    forall b :: 0 <= b < size ==> SizeOf(InBucket(names, size, b)) < U16
  }

  lemma {:induction false} SumsNarrow(names: seq<Name>, size: nat, buckets: seq<int>, caps: seq<nat>, end: int)
    requires size > 0 && LaidOut(names, size, buckets, caps, size, end) && forall b :: 0 <= b < size ==> caps[b] < U16
    ensures SumsFit(names, size)
  {
    hide InBucket, SizeOf;
    forall b | 0 <= b < size
      ensures SizeOf(InBucket(names, size, b)) < U16
    {
      EmptyBucket(InBucket(names, size, b));
    }
  }

  /** test[], while the first `n` names are written. */
  ghost predicate Written(test: seq<nat>, names: seq<Name>, n: nat, size: nat)
    requires size > 0 && n <= |names|
  {
    |test| == size && forall b :: 0 <= b < size ==> test[b] == SizeOf(InBucket(names[..n], size, b))
  }

  lemma {:induction false} WrittenOne(test: seq<nat>, names: seq<Name>, n: nat, size: nat)
    requires size > 0 && n < |names| && Written(test, names, n, size) && SumsFit(names, size)
    ensures |test| == size
    ensures !names[n].present ==> Written(test, names, n + 1, size)
    ensures names[n].present ==> var key := names[n].hash % size;
      Written(test[key := (test[key] + EltSize(|names[n].key|)) % U16], names, n + 1, size)
  {
    hide InBucket, SizeOf, EltSize;
    forall b | 0 <= b < size
      ensures SizeOf(InBucket(names[..n + 1], size, b)) == test[b]
        + if names[n].present && names[n].hash % size == b then EltSize(|names[n].key|) else 0
      ensures 0 <= SizeOf(InBucket(names[..n + 1], size, b)) < U16
    {
      SizeNat(InBucket(names[..n + 1], size, b));
      OneMore(names, n, size, b);
      Grows(names, n + 1, size, b);
    }
  }

  lemma {:induction false} NothingWritten(names: seq<Name>, size: nat, test: seq<nat>)
    requires size > 0 && |test| == size && forall b :: 0 <= b < size ==> test[b] == 0
    ensures Written(test, names, 0, size)
  {
    NoneYet(names, size);
  }

  lemma {:induction false} FillOne(mem: seq<Cell>, names: seq<Name>, size: nat, buckets: seq<int>, caps: seq<nat>,
                                   test: seq<nat>, n: nat)
    requires size > 0 && LaidOut(names, size, buckets, caps, size, |mem|) && n < |names| && names[n].present
    requires FilledTo(mem, names, size, buckets, n) && Written(test, names, n, size)
    ensures |test| == |buckets| == size
    ensures var key, e := names[n].hash % size, Element(names[n].value, names[n].key);
      var at := buckets[key] + test[key];
      && 0 <= at && at + |e| <= |mem| && |Put(mem, at, e)| == |mem|
      && FilledTo(Put(mem, at, e), names, size, buckets, n + 1)
  {
    hide HoldsAt, Element, EltSize, Packed, SizeOf, InBucket, FilledTo;
    ElementPut(mem, names, size, buckets, caps, n);
    var key := names[n].hash % size;
    assert test[key] == SizeOf(InBucket(names[..n], size, key));
    PutSize(mem, buckets[key] + test[key], Element(names[n].value, names[n].key));
  }

  /** Lines 187-208: the elements in the order of the names. */
  method FillNames(names: seq<Name>, size: nat, buckets: seq<int>, ghost caps: seq<nat>, end: nat)
    returns (mem: seq<Cell>, test: seq<nat>)
    requires size > 0 && LaidOut(names, size, buckets, caps, size, end)
    requires forall b :: 0 <= b < size ==> caps[b] < U16
    ensures |mem| == end && FilledTo(mem, names, size, buckets, |names|) && Written(test, names, |names|, size)
  {
    hide HoldsAt, Element, EltSize, Packed, SizeOf, InBucket, Put, Ptr, FilledTo, LaidOut, Written, SumsFit;
    SumsNarrow(names, size, buckets, caps, end);
    mem := seq(end, _ => Pad);
    test := seq(size, _ => 0);
    var n := 0;
    NothingWritten(names, size, test);
    NothingHeld(mem, names, size, buckets, caps);
    while n < |names|
      invariant n <= |names| && |mem| == end && FilledTo(mem, names, size, buckets, n) && Written(test, names, n, size)
    {
      WrittenOne(test, names, n, size);
      if names[n].present {
        var key := names[n].hash % size;
        FillOne(mem, names, size, buckets, caps, test, n);
        mem := Put(mem, buckets[key] + test[key], Element(names[n].value, names[n].key));
        test := test[key := (test[key] + EltSize(|names[n].key|)) % U16];
      } else {
        AbsentKeeps(mem, names, size, buckets, n);
      }
      n := n + 1;
    }
  }

  /** Lines 187-220: the elements, then the NULL values. */
  method Fill(names: seq<Name>, size: nat, buckets: seq<int>, ghost caps: seq<nat>, end: nat) returns (mem: seq<Cell>)
    requires size > 0 && LaidOut(names, size, buckets, caps, size, end)
    requires forall b :: 0 <= b < size ==> caps[b] < U16
    ensures Built(Hash(size, buckets, mem), names)
  {
    hide HoldsAt, Element, EltSize, Packed, SizeOf, InBucket, Put, Ptr, FilledTo;
    var test;
    mem, test := FillNames(names, size, buckets, caps, end);
    assert names[..|names|] == names;
    var i := 0;
    while i < size
      invariant i <= size && |mem| == end && FilledTo(mem, names, size, buckets, |names|)
      invariant forall b :: 0 <= b < i ==> BucketOk(mem, buckets[b], InBucket(names, size, b))
    {
      EmptyIff(names, size, buckets, caps, end, i);
      if buckets[i] != EMPTY {
        EndPut(mem, names, size, buckets, caps, i);
        PutSize(mem, buckets[i] + test[i], Ptr(NULL));
        mem := Put(mem, buckets[i] + test[i], Ptr(NULL));
      }
      i := i + 1;
    }
  }

  lemma {:induction false} NothingHeld(mem: seq<Cell>, names: seq<Name>, size: nat, buckets: seq<int>, caps: seq<nat>)
    requires size > 0 && LaidOut(names, size, buckets, caps, size, |mem|)
    ensures |buckets| == size && FilledTo(mem, names, size, buckets, 0)
  {
    NoneYet(names, size);
  }

  lemma {:induction false} AbsentKeeps(mem: seq<Cell>, names: seq<Name>, size: nat, buckets: seq<int>, n: nat)
    requires size > 0 && |buckets| == size && n < |names| && !names[n].present && FilledTo(mem, names, size, buckets, n)
    ensures FilledTo(mem, names, size, buckets, n + 1)
  {
    hide HoldsAt, Packed, InBucket;
    forall b | 0 <= b < size && InBucket(names, size, b) != []
      ensures HoldsAt(mem, buckets[b], Packed(InBucket(names[..n + 1], size, b)))
    {
      OneMore(names, n, size, b);
      assert InBucket(names[..n], size, b) + [] == InBucket(names[..n], size, b);
    }
  }

  lemma {:induction false} PutSize(mem: seq<Cell>, at: int, d: seq<Cell>)
    requires 0 <= at && at + |d| <= |mem|
    ensures |Put(mem, at, d)| == |mem|
  {
  }

  lemma {:induction false} EmptyIff(names: seq<Name>, size: nat, buckets: seq<int>, caps: seq<nat>, end: int, i: nat)
    requires size > 0 && LaidOut(names, size, buckets, caps, size, end) && i < size
    ensures buckets[i] == EMPTY <==> InBucket(names, size, i) == []
  {
  }

  /** A table for so many names that only its largest sizes are tried. */
  predicate Crowded(nelts: nat, maxSize: nat) { maxSize > 10000 && maxSize < 100 * nelts }

  /** The sizes that are tried: the last thousand for a crowded table, otherwise all in which the names
      find places of 16 bytes each. */
  predicate Tried(k: nat, nelts: nat, maxSize: nat, room: nat) {
    0 < k < maxSize && if Crowded(nelts, maxSize) then k >= maxSize - 1000 else nelts < (k + 1) * (room / (2 * PTR))
  }

  /** The first of them that seems to fit. */
  ghost predicate FirstTried(names: seq<Name>, k: nat, maxSize: nat, room: nat) {
    && Tried(k, |names|, maxSize, room) && SeemsToFit(names, k, room)
    && forall j: nat :: j < k && Tried(j, |names|, maxSize, room) ==> !SeemsToFit(names, j, room)
  }

  lemma TriedFrom(nelts: nat, maxSize: nat, room: nat, start: nat)
    requires room >= 2 * PTR && (nelts > 0 || maxSize <= 10000)
    requires start == if maxSize > 10000 && maxSize / nelts < 100 then maxSize - 1000
      else if nelts / (room / (2 * PTR)) > 0 then nelts / (room / (2 * PTR)) else 1
    ensures start > 0 && forall k: nat :: Tried(k, nelts, maxSize, room) <==> start <= k < maxSize
  {
    var per := room / (2 * PTR);
    if maxSize > 10000 {
      Quotients(maxSize, nelts, 99);
    }
    forall k: nat
      ensures Tried(k, nelts, maxSize, room) <==> start <= k < maxSize
    {
      Quotients(nelts, per, k);
    }
  }

  lemma Quotients(x: nat, b: nat, k: nat)
    requires b > 0
    ensures x / b <= k <==> x < (k + 1) * b
  {
    var q, m := x / b, x % b;
    assert x == q * b + m;
    if q <= k {
      MulOrder(q, k, b);
    } else {
      MulOrder(k + 1, q, b);
    }
  }

  // ----- no size that fits is left out -----

  /** How many names the first `k` buckets hold. */
  function Held(names: seq<Name>, size: nat, k: nat): nat
    requires size > 0
  {
    if k == 0 then 0 else Held(names, size, k - 1) + |InBucket(names, size, k - 1)|
  }

  lemma {:induction false} HeldOne(names: seq<Name>, n: nat, size: nat, k: nat)
    requires size > 0 && n < |names|
    ensures Held(names[..n + 1], size, k)
         == Held(names[..n], size, k) + if names[n].present && names[n].hash % size < k then 1 else 0
    decreases k
  {
    hide InBucket;
    if k > 0 {
      HeldOne(names, n, size, k - 1);
      OneMore(names, n, size, k - 1);
    }
  }

  ghost predicate AllPresent(names: seq<Name>) { forall k :: 0 <= k < |names| ==> names[k].present }

  lemma {:induction false} HeldAll(names: seq<Name>, size: nat, n: nat)
    requires size > 0 && n <= |names| && AllPresent(names)
    ensures Held(names[..n], size, size) == n
    decreases n
  {
    if n == 0 {
      HeldNone(names, size, size);
    } else {
      HeldAll(names, size, n - 1);
      HeldOne(names, n - 1, size, size);
    }
  }

  lemma {:induction false} HeldNone(names: seq<Name>, size: nat, k: nat)
    requires size > 0 && k <= size
    ensures Held(names[..0], size, k) == 0
    decreases k
  {
    NoneYet(names, size);
    if k > 0 {
      HeldNone(names, size, k - 1);
    }
  }

  lemma {:induction false} SixteenEach(names: seq<Name>)
    ensures SizeOf(names) >= 2 * PTR * |names|
  {
    if names != [] {
      SixteenEach(names[1..]);
      assert EltSize(|names[0].key|) >= 2 * PTR by {
        RoundUpOrder(1, |names[0].key| + 1, PTR);
      }
    }
  }

  lemma {:induction false} HeldFits(names: seq<Name>, size: nat, room: nat, k: nat)
    requires size > 0 && k <= size && Fits(names, size, room)
    ensures Held(names, size, k) <= k * (room / (2 * PTR))
    decreases k
  {
    hide InBucket, SizeOf;
    if k > 0 {
      HeldFits(names, size, room, k - 1);
      SixteenEach(InBucket(names, size, k - 1));
      assert |InBucket(names, size, k - 1)| <= room / (2 * PTR);
    }
  }

  /** A size in which all names fit has room for sixteen bytes for each: it is tried, unless the table
      is crowded. */
  lemma {:induction false} FittingTried(names: seq<Name>, k: nat, maxSize: nat, room: nat)
    requires AllPresent(names) && 0 < k < maxSize && Fits(names, k, room) && room >= 2 * PTR
    ensures |names| <= k * (room / (2 * PTR))
    ensures !Crowded(|names|, maxSize) ==> Tried(k, |names|, maxSize, room)
  {
    hide Fits, Held, AllPresent;
    assert names[..|names|] == names;
    HeldAll(names, k, |names|);
    HeldFits(names, k, room, k);
    NextMultiple(k, room / (2 * PTR));
  }

  lemma NextMultiple(k: nat, b: int)
    requires b > 0
    ensures k * b < (k + 1) * b
  {
  }

  /** Overrun: a bucket is given less memory than it takes, and elements are written over others or
      past the end. */
  datatype Outcome = Ok | Error | Overrun

  ghost predicate TooLong(names: seq<Name>, bucketSize: nat) {
    exists n :: 0 <= n < |names| && bucketSize < EltSize(|names[n].key|) + PTR
  }

  /** yf_hash_init. On success the hash is built from exactly the names present, in the first size tried
      that seems large enough. Without memory trouble it fails exactly for a name that is too long for a
      bucket, or if none of the sizes tried seems large enough; if all names are present and the table is
      not crowded, that is if no size below the largest is. With cache lines of up to 256 bytes and names
      below 256 it never overruns as long as the room is below 65272, which is exactly when the test for
      a size can be trusted. */
  method Init(names: seq<Name>, maxSize: nat, bucketSize: nat, line: nat, memOk: bool) returns (out: Outcome, h: Hash)
    requires bucketSize >= 3 * PTR && (names != [] || maxSize <= 10000) && 0 < line < U16 && line % PTR == 0
    ensures var room := bucketSize - PTR; out == Error <==>
      || !memOk || TooLong(names, bucketSize)
      || forall k: nat :: Tried(k, |names|, maxSize, room) ==> !SeemsToFit(names, k, room)
    ensures out == Ok ==> Built(h, names) && FirstTried(names, h.size, maxSize, bucketSize - PTR)
    ensures out == Ok ==> Unwrapped(names, h.size, line)
    ensures out == Overrun ==>
      exists k: nat :: FirstTried(names, k, maxSize, bucketSize - PTR) && !Unwrapped(names, k, line)
    ensures 256 % line == 0 && Short(names) && bucketSize - PTR < 65272 ==> out != Overrun
    ensures var room := bucketSize - PTR;
      Short(names) && room < 65272 && memOk && !TooLong(names, bucketSize) ==>
        (out == Error <==> forall k: nat :: Tried(k, |names|, maxSize, room) ==> !Fits(names, k, room))
    ensures var room := bucketSize - PTR;
      && Short(names) && room < 65272 && memOk && !TooLong(names, bucketSize)
      && AllPresent(names) && !Crowded(|names|, maxSize) ==>
        (out == Error <==> forall k: nat {:trigger Fits(names, k, room)} :: 0 < k < maxSize ==> !Fits(names, k, room))
  {
    hide EltSize, Fits, SeemsToFit, LaidOut, Built, Narrow, InBucket, SizeOf, RoundUp, Unwrapped, Short, Tried,
      AllPresent, Crowded;
    h := Hash(0, [], []);
    for n := 0 to |names|
      invariant forall k :: 0 <= k < n ==> bucketSize >= EltSize(|names[k].key|) + PTR
    {
      if bucketSize < EltSize(|names[n].key|) + PTR {
        return Error, h;
      }
    }
    if !memOk {
      return Error, h;
    }
    var room := bucketSize - PTR;
    var start := |names| / (room / (2 * PTR));
    start := if start > 0 then start else 1;
    if maxSize > 10000 && maxSize / |names| < 100 {
      start := maxSize - 1000;
    }
    TriedFrom(|names|, maxSize, room, start);
    var found, size := FindSize(names, start, maxSize, room);
    TestTrusted(names, maxSize, room);
    if !found {
      return Error, h;
    }
    if Short(names) && room < 65272 && 256 % line == 0 {
      SeemsUnwrapped(names, size, room, line);
    }
    var buckets, caps, end := LayOut(names, size, line);
    if !Unwrapped(names, size, line) {
      return Overrun, h;
    }
    var mem := Fill(names, size, buckets, caps, end);
    out, h := Ok, Hash(size, buckets, mem);
  }

  /** Where no sum can wrap: a size tried seems to fit exactly if one does, and exactly if any fits,
      for a table that is not crowded. */
  lemma TestTrusted(names: seq<Name>, maxSize: nat, room: nat)
    requires room >= 2 * PTR
    ensures Short(names) && room < 65272 ==>
      ((forall k: nat :: Tried(k, |names|, maxSize, room) ==> !SeemsToFit(names, k, room)) <==>
       (forall k: nat :: Tried(k, |names|, maxSize, room) ==> !Fits(names, k, room)))
    ensures AllPresent(names) && !Crowded(|names|, maxSize) ==>
      ((forall k: nat :: Tried(k, |names|, maxSize, room) ==> !Fits(names, k, room)) <==>
       (forall k: nat {:trigger Fits(names, k, room)} :: 0 < k < maxSize ==> !Fits(names, k, room)))
  {
    hide Fits, SeemsToFit, Narrow, Short, AllPresent, Crowded;
    if Short(names) && room < 65272 {
      ShortNarrow(names, room);
      forall k: nat | k > 0
        ensures SeemsToFit(names, k, room) <==> Fits(names, k, room)
      {
        SeemsRight(names, k, room);
      }
    }
    if AllPresent(names) && !Crowded(|names|, maxSize) {
      forall k: nat | 0 < k < maxSize && Fits(names, k, room)
        ensures Tried(k, |names|, maxSize, room)
      {
        FittingTried(names, k, maxSize, room);
      }
    }
  }

  /** Names without data take no place but are counted: with two of them size 1, in which the third
      name fits, is not tried. */
  method CountsAbsent() returns (names: seq<Name>, out: Outcome, h: Hash)
    ensures |names| == 3 && Fits(names, 1, 16) && out == Error
  {
    hide Built, Unwrapped, SeemsToFit;
    names := [Name("a", true, 97, 1), Name("", false, 0, 0), Name("", false, 0, 0)];
    NoneYet(names, 1);
    OneMore(names, 0, 1, 0);
    OneMore(names, 1, 1, 0);
    OneMore(names, 2, 1, 0);
    assert names[..3] == names;
    assert EltSize(1) == 16;
    out, h := Init(names, 3, 24, 64, true);
  }
}
