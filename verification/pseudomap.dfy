/** The 32-bit FNV-1a hash of a C string (`fnv1a_32`), and the process-wide
    find-or-insert map `static_map`, instantiated as `pseudomap` from
    `uint32_t` ids to `std::string_view`. */
module Pseudomap {

  /** The FNV-1a 32-bit offset basis, 2166136261. */
  const FNV_OFFSET_BASIS: bv32 := 0x811C9DC5
  /** The FNV 32-bit prime, 16777619. */
  const FNV_PRIME: bv32 := 0x0100_0193

  /** One FNV-1a round: xor in the byte, then multiply modulo 2^32. */
  function Step(v: bv32, c: bv8): bv32
  {
    (v ^ (c as bv32)) * FNV_PRIME
  }

  /** `fnv1a_32(s, v)`: `s` is the memory from the pointer onward; hashing
      stops at the first NUL byte (or at the end of the sequence). The result
      is FNV-1a of the C string: one `v := (v ^ byte) * 16777619` round per
      byte before the first NUL. */
  function Fnv1a32(s: seq<bv8>, v: bv32 := FNV_OFFSET_BASIS): (r: bv32)
    ensures r == HashBytes(CString(s), v)
    decreases |s|
  {
    if |s| == 0 || s[0] == 0 then v
    else
      HashBytesCons(s[0], CString(s[1..]), v);
      Fnv1a32(s[1..], Step(v, s[0]))
  }

  predicate NulFree(s: seq<bv8>)
  {
    forall i :: 0 <= i < |s| ==> s[i] != 0
  }

  /** The C string a pointer denotes: the bytes before the first NUL. */
  function CString(s: seq<bv8>): (r: seq<bv8>)
    ensures NulFree(r)
    ensures r <= s
    ensures |r| < |s| ==> s[|r|] == 0
    decreases |s|
  {
    if |s| == 0 || s[0] == 0 then [] else [s[0]] + CString(s[1..])
  }

  /** Reference definition of FNV-1a: fold Step over the bytes, last byte
      applied last. */
  function HashBytes(b: seq<bv8>, v: bv32): bv32
    decreases |b|
  {
    if |b| == 0 then v else Step(HashBytes(b[..|b| - 1], v), b[|b| - 1])
  }

  lemma {:induction false} HashBytesCons(c: bv8, t: seq<bv8>, v: bv32)
    ensures HashBytes([c] + t, v) == HashBytes(t, Step(v, c))
    decreases |t|
  {
    if |t| > 0 {
      var t' := t[..|t| - 1];
      assert ([c] + t)[..|[c] + t| - 1] == [c] + t';
      HashBytesCons(c, t', v);
    }
  }

  /** Hashing a NUL-free prefix and then the rest is hashing the whole. */
  lemma {:induction false} Fnv1a32Compose(s: seq<bv8>, t: seq<bv8>, v: bv32)
    requires NulFree(s)
    ensures Fnv1a32(s + t, v) == Fnv1a32(t, Fnv1a32(s, v))
    decreases |s|
  {
    if |s| > 0 {
      assert (s + t)[0] == s[0];
      assert (s + t)[1..] == s[1..] + t;
      Fnv1a32Compose(s[1..], t, Step(v, s[0]));
    } else {
      assert s + t == t;
    }
  }

  /** Nothing after the terminating NUL contributes to the hash. */
  lemma StopsAtNul(s: seq<bv8>, t: seq<bv8>, v: bv32)
    requires NulFree(s)
    ensures Fnv1a32(s + [0] + t, v) == Fnv1a32(s, v)
  {
    assert s + [0] + t == s + ([0] + t);
    Fnv1a32Compose(s, [0] + t, v);
    assert Fnv1a32(s, v) == Fnv1a32(s + [], v) by {
      assert s + [] == s;
    }
    Fnv1a32Compose(s, [], v);
  }

  /** The empty string hashes to the offset basis 2166136261. */
  lemma EmptyHashIsOffsetBasis(t: seq<bv8>)
    ensures Fnv1a32([]) == 2166136261
    ensures Fnv1a32([0] + t) == 2166136261
  {
  }

  /** The published vector: FNV-1a-32 of "abc" is 0x1A47E90B. */
  lemma KnownVectorAbc()
    ensures Fnv1a32([0x61, 0x62, 0x63, 0x00]) == 0x1A47E90B
  {
    var s: seq<bv8> := [0x61, 0x62, 0x63, 0x00];
    var h1 := Step(FNV_OFFSET_BASIS, 0x61);
    var h2 := Step(h1, 0x62);
    var h3 := Step(h2, 0x63);
    assert h3 == 0x1A47E90B;
    assert s[1..] == [0x62, 0x63, 0x00];
    assert s[1..][1..] == [0x63, 0x00];
    assert s[1..][1..][1..] == [0x00];
  }

  // ---------------------------------------------------------------------
  // static_map<Key, Value>::get

  /** `uint32_t`, the key type of `pseudomap`. */
  newtype u32 = x: int | 0 <= x < 0x1_0000_0000

  /** The map key of a hash value. */
  function IdOf(h: bv32): u32
  {
    h as int as u32
  }

  /** `static_map::get(key, args...)`: find-or-insert. `made` is the value
      `Value(args...)` the call would construct; it is used only when the key
      is absent. Returns the map afterwards and the value the returned
      reference designates. */
  function Get<K, V>(m: map<K, V>, key: K, made: V): (r: (map<K, V>, V))
    ensures key in r.0 && r.1 == r.0[key]
    ensures key in m ==> r.0 == m && r.1 == m[key]
    ensures key !in m ==> r.1 == made
    ensures r.0.Keys == m.Keys + {key}
    ensures forall k :: k in m ==> r.0[k] == m[k]
  {
    if key in m then (m, m[key]) else (m[key := made], made)
  }

  /** Writing through the reference `get` returned: `get(key) = v`. */
  function AssignThroughGet<K, V>(m: map<K, V>, key: K, made: V, v: V): (r: map<K, V>)
    ensures key in r
    ensures r[key] == v
    ensures r.Keys == m.Keys + {key}
    ensures forall k :: k in m && k != key ==> r[k] == m[k]
  {
    Get(m, key, made).0[key := v]
  }

  /** `pseudomap::get(id)` with no constructor arguments: a missing id gets a
      default-constructed, empty `string_view`. */
  function PseudomapGet(m: map<u32, string>, id: u32): (r: (map<u32, string>, string))
    ensures id in r.0 && r.1 == r.0[id]
    ensures id !in m ==> r.1 == "" && r.0 == m[id := ""]
    ensures id in m ==> r == (m, m[id])
  {
    Get(m, id, "")
  }

  /** `pseudomap::get(id) = text`. */
  function PseudomapAssign(m: map<u32, string>, id: u32, text: string): (r: map<u32, string>)
    ensures id in r
    ensures r[id] == text
    ensures r.Keys == m.Keys + {id}
    ensures forall k :: k in m && k != id ==> r[k] == m[k]
  {
    AssignThroughGet(m, id, "", text)
  }

  /** Assigning through `get(id)` and reading `get(id)` back yields the
      assigned text, and the read does not change the map. */
  lemma PutThenGet(m: map<u32, string>, id: u32, text: string)
    ensures PseudomapGet(PseudomapAssign(m, id, text), id)
            == (PseudomapAssign(m, id, text), text)
  {
  }

  /** A second assignment through `get` replaces the first: the map is not
      write-once. */
  lemma ReassignOverwrites(m: map<u32, string>, id: u32)
    ensures var m1 := PseudomapAssign(m, id, "once");
            var m2 := PseudomapAssign(m1, id, "twice");
            PseudomapGet(m2, id).1 == "twice" != "once"
  {
  }

  /** "hello", "key" and "missing" as NUL-terminated byte strings. */
  const HELLO: seq<bv8> := [0x68, 0x65, 0x6C, 0x6C, 0x6F, 0x00]
  const KEY: seq<bv8> := [0x6B, 0x65, 0x79, 0x00]
  const MISSING: seq<bv8> := [0x6D, 0x69, 0x73, 0x73, 0x69, 0x6E, 0x67, 0x00]

  /** The ids the pseudomap tests use for "hello", "key" and "missing". */
  lemma HelloId()
    ensures Fnv1a32(HELLO) == 0x4F9F2CAB
  {
  }

  lemma KeyId()
    ensures Fnv1a32(KEY) == 0x6815C86C
  {
  }

  lemma MissingId()
    ensures Fnv1a32(MISSING) == 0xB6F40207
  {
  }

  /** The texts the pseudomap tests read, in file order, starting from an
      empty map: "hello" after `get(hello) = "world"`, "key" after "once" and
      again after "twice", then "missing". */
  function TestReads(hello: u32, key: u32, missing: u32): seq<string>
  {
    var m1 := PseudomapAssign(map[], hello, "world");
    var (m2, sv) := PseudomapGet(m1, hello);
    var m3 := PseudomapAssign(m2, key, "once");
    var (m4, sv1) := PseudomapGet(m3, key);
    var m5 := PseudomapAssign(m4, key, "twice");
    var (m6, sv2) := PseudomapGet(m5, key);
    var (_, svMissing) := PseudomapGet(m6, missing);
    [sv, sv1, sv2, svMissing]
  }

  /** On any ids where "missing" differs from the other two, the reads are
      "world", "once", "twice" and the empty text. */
  lemma TestReadsOnIds(hello: u32, key: u32, missing: u32)
    requires missing != hello && missing != key
    ensures TestReads(hello, key, missing) == ["world", "once", "twice", ""]
  {
  }

  /** The pseudomap tests run in file order in one process, against the map
      as written. "hello" reads back "world". The "key" id reads back "once"
      and then "twice", so the second write is not ignored. The "missing" id
      reads as empty, because its id is neither of the other two. */
  lemma PseudomapTestsInOneProcess()
    ensures TestReads(IdOf(Fnv1a32(HELLO)), IdOf(Fnv1a32(KEY)), IdOf(Fnv1a32(MISSING)))
            == ["world", "once", "twice", ""]
  {
    HelloId();
    KeyId();
    MissingId();
    TestReadsOnIds(IdOf(Fnv1a32(HELLO)), IdOf(Fnv1a32(KEY)), IdOf(Fnv1a32(MISSING)));
  }

  // ---------------------------------------------------------------------
  // The write-once registry the pseudomap tests expect

  /** Stores `text` for `id` only if `id` has no text yet: first writer wins. */
  function Register(m: map<u32, string>, id: u32, text: string): (r: map<u32, string>)
    ensures id in r
    ensures id in m ==> r == m
    ensures id !in m ==> r[id] == text
    ensures r.Keys == m.Keys + {id}
    ensures forall k :: k in m ==> r[k] == m[k]
  {
    if id in m then m else m[id := text]
  }

  /** Reads the text for `id`, empty when none was registered; never inserts. */
  function Lookup(m: map<u32, string>, id: u32): (r: string)
    ensures id !in m ==> r == ""
    ensures id in m ==> r == m[id]
  {
    if id in m then m[id] else ""
  }

  /** Write-once: after registering "once" for a fresh id, a later
      registration of different text is ignored. */
  lemma RegisterWriteOnce(m: map<u32, string>, id: u32, first: string, second: string)
    requires id !in m
    ensures Lookup(Register(Register(m, id, first), id, second), id) == first
  {
  }
}
