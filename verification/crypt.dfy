/** The packet ciphers: in-place CFB over any block function, and the simpler keystreams beside it. */
module Crypt {
  import opened Bytes
  import opened Modular

  const INITIAL_VECTOR: seq<byte> := [167, 115, 79, 156, 18, 172, 27, 1, 164, 21, 242, 193, 252, 120, 230, 107]

  /** A block cipher's forward direction; nothing else about it matters. */
  type BlockFn = seq<byte> -> seq<byte>

  ghost predicate KeepsLength(E: BlockFn, bs: nat) {
    forall b :: |b| == bs ==> |E(b)| == bs
  }

  // ------------------------------------------------------------------
  // CFB, block by block (section 6.3 of NIST SP 800-38A, full-block segments)
  // ------------------------------------------------------------------

  /** `key` is the keystream block for the front of `s`; a trailing partial block uses what it needs of it. */
  function CfbEnc(E: BlockFn, bs: nat, key: seq<byte>, s: seq<byte>): seq<byte>
    requires bs > 0
    decreases |s|
  {
    if |key| != bs then s
    else if |s| < bs then XorSeq(s, key)
    else
      var c := XorSeq(s[..bs], key);
      c + CfbEnc(E, bs, E(c), s[bs..])
  }

  function CfbDec(E: BlockFn, bs: nat, key: seq<byte>, s: seq<byte>): seq<byte>
    requires bs > 0
    decreases |s|
  {
    if |key| != bs then s
    else if |s| < bs then XorSeq(s, key)
    else XorSeq(s[..bs], key) + CfbDec(E, bs, E(s[..bs]), s[bs..])
  }

  lemma CfbEncStep(E: BlockFn, bs: nat, key: seq<byte>, s: seq<byte>)
    requires bs > 0 && |key| == bs
    ensures |s| < bs ==> CfbEnc(E, bs, key, s) == XorSeq(s, key)
    ensures |s| >= bs ==> CfbEnc(E, bs, key, s) == XorSeq(s[..bs], key) + CfbEnc(E, bs, E(XorSeq(s[..bs], key)), s[bs..])
  {}

  lemma CfbDecStep(E: BlockFn, bs: nat, key: seq<byte>, s: seq<byte>)
    requires bs > 0 && |key| == bs
    ensures |s| < bs ==> CfbDec(E, bs, key, s) == XorSeq(s, key)
    ensures |s| >= bs ==> CfbDec(E, bs, key, s) == XorSeq(s[..bs], key) + CfbDec(E, bs, E(s[..bs]), s[bs..])
  {}

  /** Decryption undoes encryption for any block function, block size and length, and keeps the length. */
  lemma {:induction false} CfbInverts(E: BlockFn, bs: nat, key: seq<byte>, s: seq<byte>)
    requires bs > 0
    ensures |CfbEnc(E, bs, key, s)| == |s| && CfbDec(E, bs, key, CfbEnc(E, bs, key, s)) == s
    decreases |s|
  {
    if |key| == bs {
      if |s| < bs {
        XorSeqCancel(s, key);
      } else {
        var c := XorSeq(s[..bs], key);
        var rest := CfbEnc(E, bs, E(c), s[bs..]);
        XorSeqCancel(s[..bs], key);
        CfbInverts(E, bs, E(c), s[bs..]);
        assert (c + rest)[..bs] == c && (c + rest)[bs..] == rest;
        assert s == s[..bs] + s[bs..];
      }
    }
  }

  lemma {:induction false} CfbDecLength(E: BlockFn, bs: nat, key: seq<byte>, s: seq<byte>)
    requires bs > 0
    ensures |CfbDec(E, bs, key, s)| == |s|
    decreases |s|
  {
    if |key| == bs && |s| >= bs { CfbDecLength(E, bs, E(s[..bs]), s[bs..]); }
  }

  /** The block that feeds the cipher for byte i: the ciphertext block before it, or the initial one. */
  function Feedback(bs: nat, initial: seq<byte>, c: seq<byte>, i: nat): seq<byte>
    requires bs > 0 && i < |c|
  {
    if i < bs then initial else SubBlock(bs, i); c[i - i % bs - bs..i - i % bs]
  }

  /** CFB as the standard has it: each byte of ciphertext is the plaintext byte with the byte of the enciphered
      feedback block. */
  lemma {:induction false} CfbEncAt(E: BlockFn, bs: nat, initial: seq<byte>, s: seq<byte>, i: nat)
    requires bs > 0 && KeepsLength(E, bs) && |initial| == bs && i < |s|
    ensures var c := CfbEnc(E, bs, E(initial), s);
            && |c| == |s|
            && |Feedback(bs, initial, c, i)| == bs
            && i % bs < bs && c[i] == XorByte(s[i], E(Feedback(bs, initial, c, i))[i % bs])
    decreases |s|
  {
    hide CfbEnc, XorSeq, XorByte;
    var key := E(initial);
    CfbInverts(E, bs, key, s);
    CfbEncStep(E, bs, key, s);
    var c := CfbEnc(E, bs, key, s);
    if i < bs {
      ModUnique(bs, 0, i);
      FirstBlockAt(E, bs, key, s, i);
    } else {
      SubBlock(bs, i);
      var head := XorSeq(s[..bs], key);
      XorSeqLength(s[..bs], key);
      var rest := CfbEnc(E, bs, E(head), s[bs..]);
      CfbEncAt(E, bs, head, s[bs..], i - bs);
      FeedbackBehind(bs, initial, head, rest, i);
    }
  }

  lemma XorSeqLength(a: seq<byte>, k: seq<byte>)
    requires |a| <= |k|
    ensures |XorSeq(a, k)| == |a|
  {}

  /** Behind a first block the feedback is that of the rest. */
  lemma FeedbackBehind(bs: nat, initial: seq<byte>, head: seq<byte>, rest: seq<byte>, i: nat)
    requires bs > 0 && |head| == bs && bs <= i < bs + |rest|
    ensures Feedback(bs, initial, head + rest, i) == Feedback(bs, head, rest, i - bs)
  {
    SubBlock(bs, i);
    var at := i - i % bs;
    if i - bs < bs {
      ModUnique(bs, 0, i - bs);
      assert at == bs && (head + rest)[0..bs] == head;
    } else {
      SubBlock(bs, i - bs);
      assert (head + rest)[at - bs..at] == rest[at - bs - bs..at - bs];
    }
  }

  lemma FirstBlockAt(E: BlockFn, bs: nat, key: seq<byte>, s: seq<byte>, i: nat)
    requires bs > 0 && |key| == bs && i < |s| && i < bs && |CfbEnc(E, bs, key, s)| == |s|
    ensures CfbEnc(E, bs, key, s)[i] == XorByte(s[i], key[i])
  {
    CfbEncStep(E, bs, key, s);
    hide CfbEnc;
  }

  // ------------------------------------------------------------------
  // The in-place loops
  // ------------------------------------------------------------------

  method XorInto(buf: array<byte>, at: nat, n: nat, key: seq<byte>)
    requires at + n <= buf.Length && n <= |key|
    modifies buf
    ensures buf[..at + n] == old(buf[..at]) + XorSeq(old(buf[at..])[..n], key)
    ensures buf[at + n..] == old(buf[at..])[n..]
  {
    ghost var was := buf[..];
    for k := 0 to n
      invariant forall i :: 0 <= i < buf.Length ==>
                  buf[i] == if at <= i < at + k then XorByte(was[i], key[i - at]) else was[i]
    {
      buf[at + k] := XorByte(buf[at + k], key[k]);
    }
  }

  method CfbEncrypt(E: BlockFn, bs: nat, buf: array<byte>)
    requires (bs == 8 || bs == 16) && KeepsLength(E, bs)
    modifies buf
    ensures buf[..] == CfbEnc(E, bs, E(INITIAL_VECTOR[..bs]), old(buf[..]))
  {
    hide CfbEnc, XorSeq;
    ghost var rest := buf[..];
    ghost var goal := CfbEnc(E, bs, E(INITIAL_VECTOR[..bs]), rest);
    var tbl := E(INITIAL_VECTOR[..bs]);
    var at := 0;
    while at + bs <= buf.Length
      invariant 0 <= at <= buf.Length && |tbl| == bs
      invariant buf[at..] == rest && buf[..at] + CfbEnc(E, bs, tbl, rest) == goal
    {
      CfbEncStep(E, bs, tbl, rest);
      XorInto(buf, at, bs, tbl);
      assert buf[at..at + bs] == buf[..at + bs][at..] == XorSeq(rest[..bs], tbl);
      tbl := E(buf[at..at + bs]);
      rest := rest[bs..];
      at := at + bs;
    }
    CfbEncStep(E, bs, tbl, rest);
    assert rest[..|rest|] == rest;
    XorInto(buf, at, buf.Length - at, tbl);
    assert buf[..at + (buf.Length - at)] == buf[..];
  }

  method CfbDecrypt(E: BlockFn, bs: nat, buf: array<byte>)
    requires (bs == 8 || bs == 16) && KeepsLength(E, bs)
    modifies buf
    ensures buf[..] == CfbDec(E, bs, E(INITIAL_VECTOR[..bs]), old(buf[..]))
  {
    hide CfbDec, XorSeq;
    ghost var rest := buf[..];
    ghost var goal := CfbDec(E, bs, E(INITIAL_VECTOR[..bs]), rest);
    var tbl := E(INITIAL_VECTOR[..bs]);
    var at := 0;
    while at + bs <= buf.Length
      invariant 0 <= at <= buf.Length && |tbl| == bs
      invariant buf[at..] == rest && buf[..at] + CfbDec(E, bs, tbl, rest) == goal
    {
      CfbDecStep(E, bs, tbl, rest);
      // The next keystream block comes from the ciphertext, so it is taken before the block is overwritten.
      assert buf[at..at + bs] == buf[at..][..bs];
      var next := E(buf[at..at + bs]);
      XorInto(buf, at, bs, tbl);
      tbl := next;
      rest := rest[bs..];
      at := at + bs;
    }
    CfbDecStep(E, bs, tbl, rest);
    assert rest[..|rest|] == rest;
    XorInto(buf, at, buf.Length - at, tbl);
    assert buf[..at + (buf.Length - at)] == buf[..];
  }

  // ------------------------------------------------------------------
  // All the packet ciphers
  // ------------------------------------------------------------------

  /** `stream(nonce, n)` is n bytes of the stream cipher's keystream. */
  datatype Cipher =
    | Plain
    | XorTable(table: seq<byte>)
    | Stream(stream: (seq<byte>, nat) -> seq<byte>)
    | Cfb(E: BlockFn, bs: nat)
  {
    ghost predicate Valid() {
      match this
      case Stream(ks) => forall nonce, n: nat :: |ks(nonce, n)| == n
      case Cfb(E, bs) => (bs == 8 || bs == 16) && KeepsLength(E, bs)
      case _ => true
    }

    /** The table is zipped with the packet, so whatever lies beyond the shorter one is left as it is. */
    static function Zip(s: seq<byte>, table: seq<byte>): seq<byte> {
      var n := Min(|s|, |table|);
      XorSeq(s[..n], table) + s[n..]
    }

    /** The packet's first eight bytes are the nonce and stay in the clear. */
    static function Salt(s: seq<byte>, ks: (seq<byte>, nat) -> seq<byte>): seq<byte> {
      if |s| <= 8 || |ks(s[..8], |s| - 8)| < |s| - 8 then s else s[..8] + XorSeq(s[8..], ks(s[..8], |s| - 8))
    }

    function Encrypt(s: seq<byte>): seq<byte> {
      match this
      case Plain => s
      case XorTable(t) => Zip(s, t)
      case Stream(ks) => Salt(s, ks)
      case Cfb(E, bs) => if bs == 0 || bs > 16 then s else CfbEnc(E, bs, E(INITIAL_VECTOR[..bs]), s)
    }

    function Decrypt(s: seq<byte>): seq<byte> {
      match this
      case Plain => s
      case XorTable(t) => Zip(s, t)
      case Stream(ks) => Salt(s, ks)
      case Cfb(E, bs) => if bs == 0 || bs > 16 then s else CfbDec(E, bs, E(INITIAL_VECTOR[..bs]), s)
    }

    /** Every cipher decrypts what it encrypted and never changes a packet's length. */
    lemma Inverts(s: seq<byte>)
      requires Valid()
      ensures |Encrypt(s)| == |s| && Decrypt(Encrypt(s)) == s
    {
      match this
      case Plain =>
      case XorTable(t) =>
        var n := Min(|s|, |t|);
        XorSeqCancel(s[..n], t);
        assert Zip(s, t)[..n] == XorSeq(s[..n], t) && Zip(s, t)[n..] == s[n..];
      case Stream(ks) =>
        if |s| > 8 {
          var k := ks(s[..8], |s| - 8);
          XorSeqCancel(s[8..], k);
          assert Salt(s, ks)[..8] == s[..8] && Salt(s, ks)[8..] == XorSeq(s[8..], k);
        }
      case Cfb(E, bs) => CfbInverts(E, bs, E(INITIAL_VECTOR[..bs]), s);
    }

    lemma DecryptLength(s: seq<byte>)
      requires Valid()
      ensures |Decrypt(s)| == |s|
    {
      match this
      case Cfb(E, bs) => CfbDecLength(E, bs, E(INITIAL_VECTOR[..bs]), s);
      case _ =>
    }

    /** What each cipher does to byte i of a packet. */
    lemma EncryptAt(s: seq<byte>, i: nat)
      requires Valid() && i < |s|
      ensures |Encrypt(s)| == |s|
      ensures match this
              case Plain => Encrypt(s)[i] == s[i]
              case XorTable(t) => Encrypt(s)[i] == if i < |t| then XorByte(s[i], t[i]) else s[i]
              case Stream(ks) =>
                Encrypt(s)[i] == if i < 8 then s[i] else XorByte(s[i], ks(s[..8], |s| - 8)[i - 8])
              case Cfb(E, bs) =>
                var prev := Feedback(bs, INITIAL_VECTOR[..bs], Encrypt(s), i);
                |E(prev)| == bs && Encrypt(s)[i] == XorByte(s[i], E(prev)[i % bs])
    {
      Inverts(s);
      match this
      case Cfb(E, bs) =>
        CfbEncAt(E, bs, INITIAL_VECTOR[..bs], s, i);
      case _ =>
    }
  }

  /** Encrypting a packet where it lies. */
  method EncryptInPlace(c: Cipher, buf: array<byte>)
    requires c.Valid()
    modifies buf
    ensures buf[..] == c.Encrypt(old(buf[..]))
  {
    match c
    case Plain =>
    case XorTable(t) => ZipInPlace(t, buf);
    case Stream(ks) => SaltInPlace(ks, buf);
    case Cfb(E, bs) => CfbEncrypt(E, bs, buf);
  }

  method DecryptInPlace(c: Cipher, buf: array<byte>)
    requires c.Valid()
    modifies buf
    ensures buf[..] == c.Decrypt(old(buf[..]))
  {
    match c
    case Plain =>
    case XorTable(t) => ZipInPlace(t, buf);
    case Stream(ks) => SaltInPlace(ks, buf);
    case Cfb(E, bs) => CfbDecrypt(E, bs, buf);
  }

  method ZipInPlace(t: seq<byte>, buf: array<byte>)
    modifies buf
    ensures buf[..] == Cipher.Zip(old(buf[..]), t)
  {
    ghost var was := buf[..];
    var n := Min(buf.Length, |t|);
    XorInto(buf, 0, n, t);
    assert old(buf[0..]) == was && was[..0] == [] && [] + XorSeq(was[..n], t) == XorSeq(was[..n], t);
    assert buf[..] == buf[..0 + n] + buf[0 + n..];
  }

  method SaltInPlace(ks: (seq<byte>, nat) -> seq<byte>, buf: array<byte>)
    requires forall nonce, n: nat :: |ks(nonce, n)| == n
    modifies buf
    ensures buf[..] == Cipher.Salt(old(buf[..]), ks)
  {
    if buf.Length <= 8 {
      return;
    }
    ghost var was := buf[..];
    var n := buf.Length - 8;
    var key := ks(buf[..8], n);
    XorInto(buf, 8, n, key);
    assert old(buf[8..]) == was[8..] && was[8..][..n] == was[8..] && was[..8] == old(buf[..8]);
    assert buf[..8 + n] == buf[..];
  }
}
