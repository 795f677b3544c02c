/**
 The binding of a change: a domain tag and length-prefixed fields, hashed. SHA-256 is a parameter.
 The encoding is proved injective outright; what a hash binds is proved of any hash function that
 has no collision among the few byte strings that were actually hashed.
 */
module Hashing {
  import opened Prelude
  import opened Numerals

  const LENGTH_PREFIX_WIDTH := 8
  const MAX_FIELD: nat := 0xFFFF_FFFF_FFFF_FFFF

  datatype Tag = Path | Patch | PreState | RepoRoot | Bound

  function TagText(t: Tag): string {
    match t
    case Path => "cofferdam.path.v1"
    case Patch => "cofferdam.patch.v1"
    case PreState => "cofferdam.prestate.v1"
    case RepoRoot => "cofferdam.reporoot.v1"
    case Bound => "cofferdam.binding.v1"
  }

  predicate Seven(s: string) { forall c :: c in s ==> c as int < 0x80 }

  function Code(c: char): byte { if c as int < 0x80 then c as int else 0 }

  /** `s.encode("ascii")`. */
  function AsciiBytes(s: string): (b: bytes)
    requires Seven(s)
    ensures |b| == |s|
  {
    seq(|s|, i requires 0 <= i < |s| => Code(s[i]))
  }

  function TagBytes(t: Tag): bytes { AsciiBytes(TagText(t)) }

  /** `n` as `width` bytes, most significant first. */
  function BigEndian(n: nat, width: nat): (b: bytes)
    ensures |b| == width
  {
    if width == 0 then [] else BigEndian(n / 256, width - 1) + [n % 256]
  }

  function LengthPrefix(field: bytes): Option<bytes> {
    if |field| > MAX_FIELD then None else Some(BigEndian(|field|, LENGTH_PREFIX_WIDTH) + field)
  }

  function Fields(fields: seq<bytes>): Option<bytes> {
    if fields == [] then Some([])
    else
      var first, rest := LengthPrefix(fields[0]), Fields(fields[1..]);
      if first.None? || rest.None? then None else Some(first.value + rest.value)
  }

  /** What is hashed: the tag, then each field behind its length. */
  function Encode(t: Tag, fields: seq<bytes>): Option<bytes> {
    var body := Fields(fields);
    if body.None? then None else Some(TagBytes(t) + body.value)
  }

  type Hash = bytes -> bytes

  function Digest(sha: Hash, t: Tag, fields: seq<bytes>): (r: Option<string>)
    ensures r.Some? ==> Seven(r.value)
  {
    var input := Encode(t, fields);
    if input.None? then None
    else
      HexOfDigits(sha(input.value));
      Some(HexOf(sha(input.value)))
  }

  /** The digest, fed to the hasher piece by piece. */
  method DomainDigest(sha: Hash, t: Tag, fields: seq<bytes>) returns (r: Option<string>)
    ensures r == Digest(sha, t, fields)
  {
    hide LengthPrefix;
    var fed := TagBytes(t);
    assert fields[0..] == fields && fields[|fields|..] == [];
    ghost var done: bytes := [];
    assert Fields(fields).Some? ==> done + Fields(fields).value == Fields(fields).value;
    for i := 0 to |fields|
      invariant fed == TagBytes(t) + done
      invariant Fields(fields) == Prepend(done, Fields(fields[i..]))
    {
      assert fields[i..][0] == fields[i] && fields[i..][1..] == fields[i + 1..];
      var piece := LengthPrefix(fields[i]);
      if piece.None? {
        return None;
      }
      PrependTwice(done, piece.value, Fields(fields[i + 1..]));
      fed := fed + piece.value;
      done := done + piece.value;
    }
    assert done + [] == done;
    r := Some(HexOf(sha(fed)));
  }

  ghost function Prepend(a: bytes, b: Option<bytes>): Option<bytes> {
    if b.None? then None else Some(a + b.value)
  }

  lemma PrependTwice(a: bytes, b: bytes, c: Option<bytes>)
    ensures Prepend(a, Prepend(b, c)) == Prepend(a + b, c)
  {
    if c.Some? { assert a + (b + c.value) == (a + b) + c.value; }
  }

  // ---- the layout of what is hashed --------------------------------------------------------------

  /** The number that these bytes are, most significant first. */
  function Numeral(b: bytes): nat {
    if b == [] then 0 else b[0] * Power(|b| - 1) + Numeral(b[1..])
  }

  lemma {:induction false} NumeralAppend(b: bytes, last: byte)
    ensures Numeral(b + [last]) == 256 * Numeral(b) + last
  {
    if b == [] {
      assert b + [last] == [last] && [last][1..] == [];
    } else {
      NumeralAppend(b[1..], last);
      assert (b + [last])[1..] == b[1..] + [last];
      assert Power(|b|) == 256 * Power(|b| - 1);
      Widened(b[0], Power(|b| - 1), Numeral(b[1..]), last);
    }
  }

  lemma Widened(x: nat, p: nat, m: nat, last: nat)
    ensures x * (256 * p) + (256 * m + last) == 256 * (x * p + m) + last
  {
  }

  lemma {:induction false} BigEndianExact(n: nat, width: nat)
    requires n < Power(width)
    ensures Numeral(BigEndian(n, width)) == n
  {
    if width > 0 {
      BigEndianExact(n / 256, width - 1);
      NumeralAppend(BigEndian(n / 256, width - 1), n % 256);
    }
  }

  /** A field goes in behind its length in eight bytes, most significant first, unless that does not suffice. */
  lemma LengthPrefixExact(field: bytes)
    ensures LengthPrefix(field).Some? <==> |field| < Power(8)
    ensures LengthPrefix(field).Some? ==>
      var r := LengthPrefix(field).value; |r| == 8 + |field| && Numeral(r[..8]) == |field| && r[8..] == field
  {
    EightBytes();
    hide BigEndian, Power;
    if LengthPrefix(field).Some? {
      BigEndianExact(|field|, 8);
      assert LengthPrefix(field).value[..8] == BigEndian(|field|, 8);
    }
  }

  /** The fields go in one after the other. */
  lemma {:induction false} FieldsAppend(a: seq<bytes>, b: seq<bytes>)
    ensures Fields([]) == Some([])
    ensures Fields(a + b) ==
      if Fields(a).Some? && Fields(b).Some? then Some(Fields(a).value + Fields(b).value) else None
    ensures forall x: bytes :: Fields([x]) == LengthPrefix(x)
  {
    hide LengthPrefix;
    forall x: bytes ensures Fields([x]) == LengthPrefix(x) {
      assert [x][1..] == [];
      if LengthPrefix(x).Some? { assert LengthPrefix(x).value + [] == LengthPrefix(x).value; }
    }
    if a == [] {
      assert a + b == b;
      if Fields(b).Some? { assert [] + Fields(b).value == Fields(b).value; }
    } else {
      assert (a + b)[1..] == a[1..] + b;
      FieldsAppend(a[1..], b);
      if LengthPrefix(a[0]).Some? && Fields(a[1..]).Some? && Fields(b).Some? {
        assert LengthPrefix(a[0]).value + (Fields(a[1..]).value + Fields(b).value)
            == (LengthPrefix(a[0]).value + Fields(a[1..]).value) + Fields(b).value;
      }
    }
  }

  /** The tag comes first, in ASCII. */
  lemma EncodeExact(t: Tag, fields: seq<bytes>)
    ensures Encode(t, fields).Some? <==> Fields(fields).Some?
    ensures Encode(t, fields).Some? ==>
      var r, text := Encode(t, fields).value, TagText(t);
      |r| == |text| + |Fields(fields).value| && r[|text|..] == Fields(fields).value
      && forall k :: 0 <= k < |text| ==> r[k] == text[k] as int
  {
    hide Fields;
    forall k | 0 <= k < |TagText(t)| ensures TagBytes(t)[k] == TagText(t)[k] as int { assert TagText(t)[k] in TagText(t); }
  }

  // ---- the encoding is injective ---------------------------------------------------------------

  lemma {:induction false} BigEndianInjective(m: nat, n: nat, width: nat)
    requires m < Power(width) && n < Power(width) && BigEndian(m, width) == BigEndian(n, width)
    ensures m == n
  {
    if width > 0 {
      var a, b := BigEndian(m, width), BigEndian(n, width);
      assert a[width - 1] == b[width - 1];
      assert BigEndian(m / 256, width - 1) == a[..width - 1] && BigEndian(n / 256, width - 1) == b[..width - 1];
      BigEndianInjective(m / 256, n / 256, width - 1);
    }
  }

  function Power(width: nat): nat {
    if width == 0 then 1 else 256 * Power(width - 1)
  }

  lemma EightBytes()
    ensures Power(LENGTH_PREFIX_WIDTH) == MAX_FIELD + 1
  {
    assert Power(4) == 0x1_0000_0000;
    assert Power(8) == 256 * (256 * (256 * (256 * Power(4))));
  }

  /** A length-prefixed field ends where it says it does, whatever follows it. */
  lemma PrefixDecides(a: bytes, x: bytes, b: bytes, y: bytes)
    requires LengthPrefix(a).Some? && LengthPrefix(b).Some?
    requires LengthPrefix(a).value + x == LengthPrefix(b).value + y
    ensures a == b && x == y
  {
    var s, t := LengthPrefix(a).value + x, LengthPrefix(b).value + y;
    var w := LENGTH_PREFIX_WIDTH;
    assert BigEndian(|a|, w) == s[..w] && BigEndian(|b|, w) == t[..w];
    EightBytes();
    BigEndianInjective(|a|, |b|, w);
    hide BigEndian, Power;
    assert a == s[w..w + |a|] && b == t[w..w + |b|];
    assert x == s[w + |a|..] && y == t[w + |b|..];
  }

  lemma {:induction false} FieldsInjective(a: seq<bytes>, b: seq<bytes>)
    requires Fields(a).Some? && Fields(a) == Fields(b)
    ensures a == b
  {
    hide BigEndian;
    if a != [] && b != [] {
      PrefixDecides(a[0], Fields(a[1..]).value, b[0], Fields(b[1..]).value);
      FieldsInjective(a[1..], b[1..]);
      assert a == [a[0]] + a[1..] && b == [b[0]] + b[1..];
    }
  }

  /** No tag is a prefix of another, so the first bytes of an encoding decide its domain. */
  lemma TagsDecide(s: Tag, x: bytes, t: Tag, y: bytes)
    requires TagBytes(s) + x == TagBytes(t) + y
    ensures s == t && x == y
  {
    var a, b := TagBytes(s) + x, TagBytes(t) + y;
    assert a[10] == TagText(s)[10] as int && b[10] == TagText(t)[10] as int;
    assert a[11] == TagText(s)[11] as int && b[11] == TagText(t)[11] as int;
    assert a[13] == TagText(s)[13] as int && b[13] == TagText(t)[13] as int;
    assert s == t;
    assert x == a[|TagBytes(s)|..] && y == b[|TagBytes(t)|..];
  }

  /** Injective across all of the tags and all numbers of fields. */
  lemma EncodeInjective(s: Tag, a: seq<bytes>, t: Tag, b: seq<bytes>)
    requires Encode(s, a).Some? && Encode(s, a) == Encode(t, b)
    ensures s == t && a == b
  {
    TagsDecide(s, Fields(a).value, t, Fields(b).value);
    FieldsInjective(a, b);
  }

  // ---- what the bound hash binds ------------------------------------------------------------------

  /** A target that is absent, or a regular file with its bytes; an empty file is not an absent one. */
  type Target = Option<bytes>

  const ABSENT := AsciiBytes("absent")
  const REGULAR := AsciiBytes("regular")

  /** The pre-state descriptor: the kind, and the raw digest of the content of a regular file. */
  function Descriptor(sha: Hash, pre: Target): seq<bytes> {
    match pre
    case None => [ABSENT]
    case Some(data) => [REGULAR, sha(data)]
  }

  datatype Change = Change(path: bytes, patch: bytes, pre: Target, root: bytes)

  /** The four component hashes, in the order they are bound. */
  function Components(sha: Hash, c: Change): (r: Option<seq<string>>)
    ensures r.Some? ==> |r.value| == 4 && forall k :: 0 <= k < 4 ==> Seven(r.value[k])
  {
    var path, patch := Digest(sha, Path, [c.path]), Digest(sha, Patch, [c.patch]);
    var pre, root := Digest(sha, PreState, Descriptor(sha, c.pre)), Digest(sha, RepoRoot, [c.root]);
    if path.None? || patch.None? || pre.None? || root.None? then None
    else Some([path.value, patch.value, pre.value, root.value])
  }

  function BoundFields(hashes: seq<string>): seq<bytes>
    requires |hashes| == 4 && forall k :: 0 <= k < 4 ==> Seven(hashes[k])
  {
    [AsciiBytes(hashes[0]), AsciiBytes(hashes[1]), AsciiBytes(hashes[2]), AsciiBytes(hashes[3])]
  }

  function BoundHash(sha: Hash, c: Change): Option<string> {
    var hashes := Components(sha, c);
    if hashes.None? then None else Digest(sha, Bound, BoundFields(hashes.value))
  }

  /** The bound hash is of the four component digests, in this order, in ASCII; absence has a word of its own. */
  lemma BoundHashExact(sha: Hash, c: Change, path: string, patch: string, pre: string, root: string)
    requires Digest(sha, Path, [c.path]) == Some(path) && Digest(sha, Patch, [c.patch]) == Some(patch)
    requires Digest(sha, PreState, if c.pre.None? then [ABSENT] else [REGULAR, sha(c.pre.value)]) == Some(pre)
    requires Digest(sha, RepoRoot, [c.root]) == Some(root)
    ensures BoundHash(sha, c) == Digest(sha, Bound, [AsciiBytes(path), AsciiBytes(patch), AsciiBytes(pre), AsciiBytes(root)])
  {
    hide Digest, AsciiBytes;
  }

  /** Every byte string that is hashed on the way to a bound hash. */
  function Hashed(sha: Hash, c: Change): seq<Option<bytes>> {
    [Encode(Path, [c.path]), Encode(Patch, [c.patch]), Encode(PreState, Descriptor(sha, c.pre)),
     Encode(RepoRoot, [c.root]), c.pre,
     if Components(sha, c).Some? then Encode(Bound, BoundFields(Components(sha, c).value)) else None]
  }

  predicate Among(sha: Hash, c: Change, x: bytes) {
    exists k :: 0 <= k < 6 && Hashed(sha, c)[k] == Some(x)
  }

  /** No two different strings hashed for these two changes have one hash. */
  ghost predicate NoCollision(sha: Hash, c: Change, d: Change) {
    forall x, y :: (Among(sha, c, x) || Among(sha, d, x)) && (Among(sha, c, y) || Among(sha, d, y)) && sha(x) == sha(y) ==> x == y
  }

  /** Equal digests of two strings that were hashed mean equal domains and equal fields. */
  lemma SameDigest(sha: Hash, c: Change, d: Change, i: nat, s: Tag, a: seq<bytes>, j: nat, t: Tag, b: seq<bytes>)
    requires NoCollision(sha, c, d) && Digest(sha, s, a).Some? && Digest(sha, s, a) == Digest(sha, t, b)
    requires i < 6 && j < 6 && Hashed(sha, c)[i] == Encode(s, a) && Hashed(sha, d)[j] == Encode(t, b)
    ensures s == t && a == b
  {
    hide Encode, HexOf, Hashed;
    var x, y := Encode(s, a).value, Encode(t, b).value;
    HexOfInjective(sha(x), sha(y));
    assert Among(sha, c, x) && Among(sha, d, y);
    EncodeInjective(s, a, t, b);
  }

  lemma AsciiBytesInjective(s: string, t: string)
    requires Seven(s) && Seven(t) && AsciiBytes(s) == AsciiBytes(t)
    ensures s == t
  {
    assert |s| == |t|;
    forall i | 0 <= i < |s| ensures s[i] == t[i] {
      assert s[i] in s && t[i] in t && AsciiBytes(s)[i] == AsciiBytes(t)[i];
    }
  }

  lemma BoundFieldsInjective(a: seq<string>, b: seq<string>)
    requires |a| == 4 && (forall k :: 0 <= k < 4 ==> Seven(a[k]))
    requires |b| == 4 && (forall k :: 0 <= k < 4 ==> Seven(b[k]))
    requires BoundFields(a) == BoundFields(b)
    ensures a == b
  {
    hide AsciiBytes;
    forall k | 0 <= k < 4 ensures a[k] == b[k] {
      assert BoundFields(a)[k] == AsciiBytes(a[k]) && BoundFields(b)[k] == AsciiBytes(b[k]);
      AsciiBytesInjective(a[k], b[k]);
    }
  }

  /** Equal descriptors are of equal targets: absent is not empty, and content digests do not collide. */
  lemma DescriptorBinds(sha: Hash, c: Change, d: Change)
    requires NoCollision(sha, c, d) && Descriptor(sha, c.pre) == Descriptor(sha, d.pre)
    ensures c.pre == d.pre
  {
    assert |ABSENT| == 6 && |REGULAR| == 7;
    assert Descriptor(sha, c.pre)[0] == Descriptor(sha, d.pre)[0];
    if c.pre.Some? && d.pre.Some? {
      assert Descriptor(sha, c.pre)[1] == Descriptor(sha, d.pre)[1];
      assert Hashed(sha, c)[4] == c.pre && Hashed(sha, d)[4] == d.pre;
      hide Hashed;
      assert Among(sha, c, c.pre.value) && Among(sha, d, d.pre.value);
    }
  }

  lemma ComponentsBind(sha: Hash, c: Change, d: Change)
    requires Components(sha, c).Some? && Components(sha, c) == Components(sha, d) && NoCollision(sha, c, d)
    ensures c == d
  {
    hide NoCollision, Digest, Encode, Descriptor;
    var a, b := Components(sha, c).value, Components(sha, d).value;
    assert a[0] == b[0] && a[1] == b[1] && a[2] == b[2] && a[3] == b[3];
    SameDigest(sha, c, d, 0, Path, [c.path], 0, Path, [d.path]);
    SameDigest(sha, c, d, 1, Patch, [c.patch], 1, Patch, [d.patch]);
    SameDigest(sha, c, d, 2, PreState, Descriptor(sha, c.pre), 2, PreState, Descriptor(sha, d.pre));
    SameDigest(sha, c, d, 3, RepoRoot, [c.root], 3, RepoRoot, [d.root]);
    DescriptorBinds(sha, c, d);
    assert [c.path][0] == [d.path][0] && [c.patch][0] == [d.patch][0] && [c.root][0] == [d.root][0];
  }

  /**
   The bound hash binds the path bytes, the patch bytes, the pre-state and the root bytes: equal
   hashes mean equal changes, with an absent target told apart from an empty file.
   */
  lemma BoundHashBinds(sha: Hash, c: Change, d: Change)
    requires BoundHash(sha, c).Some? && BoundHash(sha, c) == BoundHash(sha, d) && NoCollision(sha, c, d)
    ensures c == d
  {
    hide NoCollision, Digest, Encode, BoundFields, Components;
    var a, b := Components(sha, c).value, Components(sha, d).value;
    SameDigest(sha, c, d, 5, Bound, BoundFields(a), 5, Bound, BoundFields(b));
    BoundFieldsInjective(a, b);
    ComponentsBind(sha, c, d);
  }
}
