/** Hashing of path components: the word-at-a-time and the bytewise versions of hash_name
    and full_name_hash.

    A name is the memory it starts at; reading past the end of the modelled memory gives
    zero bytes, as load_unaligned_zeropad does.  A machine word is its eight bytes, lowest
    first; the bit tricks that find a byte in a word are taken as "first matching byte". */
module NameHash {
  import opened Common

  const WORD: int := 8
  const SLASH: byte := 47

  function Wrap64(n: nat): (r: nat) { n % 0x1_0000_0000_0000_0000 }

  function At(mem: seq<byte>, i: nat): (b: byte) {
    if i < |mem| then mem[i] else 0
  }

  predicate Ends(b: byte) { b == 0 || b == SLASH }

  /** The bytes of one word loaded at an offset. */
  function Load(mem: seq<byte>, off: nat): (w: seq<byte>)
    ensures |w| == WORD && forall k :: 0 <= k < WORD ==> w[k] == At(mem, off + k)
  {
    seq(WORD, k requires 0 <= k < WORD => At(mem, off + k))
  }

  /** The component: everything before the first '/' or NUL. */
  function ComponentLen(mem: seq<byte>): (n: nat)
    ensures n <= |mem| && Ends(At(mem, n)) && forall i :: 0 <= i < n ==> !Ends(mem[i])
  {
    if mem == [] || Ends(mem[0]) then 0 else 1 + ComponentLen(mem[1..])
  }

  lemma ComponentLenUnique(mem: seq<byte>, n: nat)
    requires Ends(At(mem, n)) && forall i :: 0 <= i < n ==> !Ends(At(mem, i))
    ensures n == ComponentLen(mem)
  {
  }

  /** Position of the first '/' or NUL byte in a word, WORD if there is none. */
  function FindEnd(w: seq<byte>): (k: nat)
    ensures k <= |w| && (k < |w| ==> Ends(w[k])) && forall i :: 0 <= i < k ==> !Ends(w[i])
  {
    if w == [] || Ends(w[0]) then 0 else 1 + FindEnd(w[1..])
  }

  // ---------- the specification ----------

  /** The value of bytes read as a little-endian number. */
  function Value(w: seq<byte>): (n: nat) {
    if w == [] then 0 else w[0] as nat + 256 * Value(w[1..])
  }

  /** One full word goes into the hash. */
  function Mix(hash: nat, word: seq<byte>): (h: nat) { Wrap64((hash + Value(word)) * 9) }

  /** The hash of a whole component, eight bytes at a time. */
  function WordHash(s: seq<byte>, hash: nat): (h: nat)
    decreases |s|
  {
    if |s| < WORD then Wrap64(hash + Value(s))
    else WordHash(s[WORD..], Mix(hash, s[..WORD]))
  }

  function FoldHash(hash: nat): (h: nat) {
    (hash + hash / 0x1_0000_0000) % 0x1_0000_0000
  }

  function PartialNameHash(c: byte, prev: nat): (h: nat) {
    Wrap64((prev + c as nat * 16 + c as nat / 16) * 11)
  }

  function ByteHash(s: seq<byte>, hash: nat): (h: nat)
    decreases |s|
  {
    if s == [] then hash else ByteHash(s[1..], PartialNameHash(s[0], hash))
  }

  function EndNameHash(hash: nat): (h: nat) { hash % 0x1_0000_0000 }

  // ---------- word at a time ----------

  /** full_name_hash: len bytes of name */
  method FullNameHash(name: seq<byte>, len: nat) returns (h: nat)
    requires len <= |name|
    ensures h == FoldHash(WordHash(name[..len], 0))
  {
    var hash: nat, off: nat, left: nat := 0, 0, len;
    ghost var goal := WordHash(name[..len], 0);
    assert name[0..len] == name[..len];
    while true
      invariant off + left == len && WordHash(name[off..len], hash) == goal
      decreases left
    {
      var a := Load(name, off);
      if left < WORD {
        LoadPart(name, off, left);
        LastValue(name, off, left, hash);
        hash := Wrap64(hash + Value(a[..left]));
        break;
      }
      WordStep(name, len, off, hash);
      NothingLeft(name, off + WORD, Value(a), hash);
      hash := Mix(hash, a);
      off := off + WORD;
      left := left - WORD;
      if left == 0 { break; }
    }
    return FoldHash(hash);
  }

  lemma WordStep(name: seq<byte>, n: nat, off: nat, hash: nat)
    requires off + WORD <= n <= |name|
    ensures WordHash(name[off..n], hash) == WordHash(name[off + WORD..n], Mix(hash, Load(name, off)))
  {
    var s := name[off..n];
    assert s[..WORD] == Load(name, off) && s[WORD..] == name[off + WORD..n];
  }

  /** A word that holds the end of the component: where it is, and what is hashed of it. */
  lemma LastWord(name: seq<byte>, off: nat, k: nat)
    requires off <= ComponentLen(name) && k == FindEnd(Load(name, off)) < WORD
    ensures off + k == ComponentLen(name) && name[off..off + k] == Load(name, off)[..k]
  {
    var a := Load(name, off);
    forall i | 0 <= i < off + k ensures !Ends(At(name, i)) {
      if i >= off { assert At(name, i) == a[i - off]; }
    }
    assert At(name, off + k) == a[k];
    ComponentLenUnique(name, off + k);
  }

  /** Bytes of the name inside one loaded word. */
  lemma LoadPart(name: seq<byte>, off: nat, k: nat)
    requires off + k <= |name| && k <= WORD
    ensures name[off..off + k] == Load(name, off)[..k]
  {
  }

  /** A name of whole words ends without another word. */
  lemma NothingLeft(name: seq<byte>, off: nat, v: nat, hash: nat)
    requires off <= |name|
    ensures var h := Wrap64((hash + v) * 9); WordHash(name[off..off], h) == h
  {
  }

  lemma LastValue(name: seq<byte>, off: nat, k: nat, hash: nat)
    requires off + k <= |name| && k < WORD && name[off..off + k] == Load(name, off)[..k]
    ensures WordHash(name[off..off + k], hash) == Wrap64(hash + Value(Load(name, off)[..k]))
  {
  }

  /** A word without '/' and NUL lies inside the component. */
  lemma FullWord(name: seq<byte>, off: nat)
    requires off <= ComponentLen(name) && FindEnd(Load(name, off)) == WORD
    ensures off + WORD <= ComponentLen(name)
  {
    var a := Load(name, off);
    forall i | off <= i < off + WORD ensures !Ends(At(name, i)) { assert At(name, i) == a[i - off]; }
  }

  /** hash_name: the length of the component and the hash full_name_hash gives for it */
  method HashName(name: seq<byte>) returns (len: nat, h: nat)
    ensures len == ComponentLen(name)
    ensures h == FoldHash(WordHash(name[..len], 0))
  {
    ghost var n := ComponentLen(name);
    ghost var goal := WordHash(name[..n], 0);
    assert name[0..n] == name[..n];
    var hash: nat, a: seq<byte>, off: int, k: nat := 0, [], -WORD, 0;
    while true
      invariant -WORD <= off && off + WORD <= n
      invariant WordHash(name[off + WORD..n], Mix(hash, a)) == goal
      decreases n - off
    {
      hash := Mix(hash, a);
      off := off + WORD;
      a := Load(name, off);
      k := FindEnd(a);
      if k < WORD { break; }
      FullWord(name, off);
      WordStep(name, n, off, hash);
    }
    LastWord(name, off, k);
    LastValue(name, off, k, hash);
    hash := Wrap64(hash + Value(a[..k]));
    return off + k, FoldHash(hash);
  }

  // ---------- bytewise ----------

  method FullNameHashBytes(name: seq<byte>, len: nat) returns (h: nat)
    requires len <= |name|
    ensures h == EndNameHash(ByteHash(name[..len], 0))
  {
    var hash: nat, i: nat := 0, 0;
    ghost var s := name[..len];
    assert s[0..] == s;
    while i < len
      invariant 0 <= i <= len && ByteHash(s[i..], hash) == ByteHash(s, 0)
    {
      assert s[i..][0] == name[i] && s[i..][1..] == s[i + 1..];
      hash := PartialNameHash(name[i], hash);
      i := i + 1;
    }
    return EndNameHash(hash);
  }

  /** The bytewise hash_name, called only with a component of at least one character. */
  method HashNameBytes(name: seq<byte>) returns (len: nat, h: nat)
    requires !Ends(At(name, 0))
    ensures len == ComponentLen(name)
    ensures h == EndNameHash(ByteHash(name[..len], 0))
  {
    ghost var n := ComponentLen(name);
    ghost var s := name[..n];
    var hash: nat, c := 0, At(name, 0);
    len := 0;
    assert s[0..] == s;
    while true
      invariant 0 <= len < n && c == name[len] && ByteHash(s[len..], hash) == ByteHash(s, 0)
      decreases n - len
    {
      assert s[len..][0] == c && s[len..][1..] == s[len + 1..];
      len := len + 1;
      hash := PartialNameHash(c, hash);
      c := At(name, len);
      if Ends(c) { break; }
    }
    return len, EndNameHash(hash);
  }
}
