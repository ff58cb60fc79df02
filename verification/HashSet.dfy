/** Languge/shell/safeboot/util_auth.sh: the two-level image hash and image padding. The 32-byte hash
    function (openssl dgst -sha256) is a parameter h. */
module HashSet {
  import opened Arithmetic
  import opened Wrappers

  const HASH_SIZE := 32
  const HASH_BLOCK_SIZE := 64
  const BLOCK_SIZE := 32768

  type Bytes = seq<byte>
  type Digest = d: Bytes | |d| == HASH_SIZE witness seq(HASH_SIZE, _ => 0)

  /** dd of=file seek=at bs=1 conv=notrunc */
  function WriteAt(file: Bytes, at: nat, data: Bytes): Bytes {
    var base := if |file| < at then file + Zeros(at - |file|) else file;
    base[..at] + data + if at + |data| < |base| then base[at + |data|..] else []
  }

  // ---------- what the two levels are ----------

  /** The image cut into pieces of BLOCK_SIZE, the last one possibly shorter. */
  function Blocks(image: Bytes): (parts: seq<Bytes>)
    ensures parts == [] <==> image == []
  {
    if image == [] then []
    else if |image| <= BLOCK_SIZE then [image]
    else [image[..BLOCK_SIZE]] + Blocks(image[BLOCK_SIZE..])
  }

  function Concat(parts: seq<Bytes>): Bytes {
    if parts == [] then [] else parts[0] + Concat(parts[1..])
  }

  /** The digests of the parts, one after the other. */
  function Digests(parts: seq<Bytes>, h: Bytes -> Digest): (d: Bytes)
    ensures |d| == HASH_SIZE * |parts|
  {
    if parts == [] then [] else h(parts[0]) + Digests(parts[1..], h)
  }

  function AlignUp(n: nat): nat {
    if n % HASH_BLOCK_SIZE != 0 then n + HASH_BLOCK_SIZE - n % HASH_BLOCK_SIZE else n
  }

  /** The level-2 file: all block digests, filled up with zeros. */
  function Level2(image: Bytes, h: Bytes -> Digest): Bytes {
    var d := Digests(Blocks(image), h);
    d + Zeros(AlignUp(|d|) - |d|)
  }

  /** What is hashed last: the level-2 file of an image of several blocks, else the image itself. */
  function Root(image: Bytes, h: Bytes -> Digest): Bytes {
    if |image| > BLOCK_SIZE then Level2(image, h) else image
  }

  /** There is no block, and so no hash, for an empty image: cp fails and set -e ends the script. */
  function HashOf(image: Bytes, h: Bytes -> Digest): Option<Digest> {
    if image == [] then None else Some(h(Root(image, h)))
  }

  // ---------- the script ----------

  lemma {:induction false} BlockCount(image: Bytes)
    ensures |Blocks(image)| == |image| / BLOCK_SIZE + if |image| % BLOCK_SIZE != 0 then 1 else 0
    decreases |image|
  {
    if |image| > BLOCK_SIZE { BlockCount(image[BLOCK_SIZE..]); }
  }

  lemma {:induction false} DigestsAppend(parts: seq<Bytes>, p: Bytes, h: Bytes -> Digest)
    ensures Digests(parts + [p], h) == Digests(parts, h) + h(p)
  {
    if parts == [] {
      assert parts + [p] == [p];
      assert Digests([p], h) == h(p) + Digests([], h);
    } else {
      assert (parts + [p])[1..] == parts[1..] + [p];
      DigestsAppend(parts[1..], p, h);
    }
  }

  lemma WriteIntoZeros(x: Bytes, fill: nat, data: Bytes)
    requires |data| <= fill
    ensures WriteAt(x + Zeros(fill), |x|, data) == x + data + Zeros(fill - |data|)
  {
  }

  lemma WriteNextDigest(parts: seq<Bytes>, p: Bytes, h: Bytes -> Digest, fill: nat)
    requires fill >= HASH_SIZE
    ensures WriteAt(Digests(parts, h) + Zeros(fill), HASH_SIZE * |parts|, h(p))
            == Digests(parts + [p], h) + Zeros(fill - HASH_SIZE)
  {
    WriteIntoZeros(Digests(parts, h), fill, h(p));
    DigestsAppend(parts, p, h);
  }

  lemma ShiftedSlice(s: Bytes, d: nat, lo: nat, hi: nat)
    requires d <= lo <= hi <= |s|
    ensures s[d..][lo - d..hi - d] == s[lo..hi]
  {
  }

  /** Block k is the k-th stretch of BLOCK_SIZE bytes, or what is left of the image. */
  lemma {:induction false} BlockAt(image: Bytes, k: nat, lo: nat, hi: nat)
    requires k < |Blocks(image)| && lo == BLOCK_SIZE * k
    requires hi == if k == |Blocks(image)| - 1 then |image| else lo + BLOCK_SIZE
    ensures lo <= hi <= |image| && Blocks(image)[k] == image[lo..hi]
    decreases k
  {
    if |image| > BLOCK_SIZE {
      var rest := image[BLOCK_SIZE..];
      assert Blocks(image) == [image[..BLOCK_SIZE]] + Blocks(rest);
      if k > 0 {
        BlockAt(rest, k - 1, lo - BLOCK_SIZE, hi - BLOCK_SIZE);
        ShiftedSlice(image, BLOCK_SIZE, lo, hi);
      } else {
        assert rest != [];
      }
    } else {
      assert k == 0 && Blocks(image) == [image];
    }
  }

  /** The level-2 file, of the given size, after the first k blocks. */
  function Level2After(image: Bytes, h: Bytes -> Digest, k: nat, size: nat): Bytes
    requires k <= |Blocks(image)| && HASH_SIZE * |Blocks(image)| <= size
  {
    Digests(Blocks(image)[..k], h) + Zeros(size - HASH_SIZE * k)
  }

  lemma Level2Next(image: Bytes, h: Bytes -> Digest, k: nat, at: nat, size: nat)
    requires k < |Blocks(image)| && HASH_SIZE * |Blocks(image)| <= size && at == HASH_SIZE * k
    ensures WriteAt(Level2After(image, h, k, size), at, h(Blocks(image)[k])) == Level2After(image, h, k + 1, size)
  {
    var b := Blocks(image);
    assert b[..k + 1] == b[..k] + [b[k]];
    WriteNextDigest(b[..k], b[k], h, size - HASH_SIZE * k);
  }

  /** Lines 113-128: the number of blocks, the size of the last one (0 if full), the level-2 file size. */
  method Layout(image: Bytes) returns (blkNum: nat, blkMod: nat, l2Size: nat)
    ensures blkNum == |Blocks(image)| && l2Size == AlignUp(HASH_SIZE * blkNum)
    ensures blkMod < BLOCK_SIZE
    ensures image != [] ==> blkNum > 0 && |image| == BLOCK_SIZE * (blkNum - 1) + if blkMod == 0 then BLOCK_SIZE else blkMod
    ensures image == [] ==> blkNum == 0
  {
    var imgSize := |image|;
    blkNum, blkMod := imgSize / BLOCK_SIZE, imgSize % BLOCK_SIZE;
    if blkMod != 0 {
      blkNum := blkNum + 1;
    }
    l2Size := blkNum * HASH_SIZE;
    var l2Mod := l2Size % HASH_BLOCK_SIZE;
    if l2Mod != 0 {
      l2Size := l2Size + HASH_BLOCK_SIZE - l2Mod;
    }
    BlockCount(image);
  }

  /** Lines 142-145 and 154-157: hash the len bytes of the image at imgCurr, block k, and put the digest
      into the level-2 file. */
  method HashPart(image: Bytes, h: Bytes -> Digest, ghost k: nat, imgCurr: nat, len: nat, l2: Bytes, hashCurr: nat,
                  ghost size: nat)
    returns (l2': Bytes, digest: Digest)
    requires k < |Blocks(image)| && HASH_SIZE * |Blocks(image)| <= size
    requires imgCurr == BLOCK_SIZE * k && hashCurr == HASH_SIZE * k && l2 == Level2After(image, h, k, size)
    requires imgCurr + len == if k == |Blocks(image)| - 1 then |image| else imgCurr + BLOCK_SIZE
    ensures l2' == Level2After(image, h, k + 1, size) && digest == h(Blocks(image)[k])
  {
    BlockAt(image, k, imgCurr, imgCurr + len);
    var part := image[imgCurr..imgCurr + len];
    digest := h(part);
    Level2Next(image, h, k, hashCurr, size);
    l2' := WriteAt(l2, hashCurr, digest);
  }

  /** process_hash_set: the loop cuts the image, hashes the pieces and fills the level-2 file. */
  method ProcessHashSet(image: Bytes, h: Bytes -> Digest) returns (r: Option<Digest>)
    ensures r == HashOf(image, h)
  {
    var imgCurr, hashCurr := 0, 0;
    var blkNum, blkMod, l2Size := Layout(image);
    var l2 := Zeros(l2Size);
    var part1: Option<Digest> := None;
    var i := 1;
    while i <= blkNum
      invariant 1 <= i <= blkNum + 1
      invariant i <= blkNum ==> imgCurr == BLOCK_SIZE * (i - 1) && hashCurr == HASH_SIZE * (i - 1)
      invariant i <= blkNum ==> |image| == BLOCK_SIZE * (blkNum - 1) + if blkMod == 0 then BLOCK_SIZE else blkMod
      invariant l2 == Level2After(image, h, i - 1, l2Size)
      invariant part1 == if i == 1 then None else Some(h(Blocks(image)[0]))
    {
      var digest;
      if i != blkNum {
        l2, digest := HashPart(image, h, i - 1, imgCurr, BLOCK_SIZE, l2, hashCurr, l2Size);
        imgCurr := imgCurr + BLOCK_SIZE;
        hashCurr := hashCurr + HASH_SIZE;
      } else {
        if blkMod == 0 {
          blkMod := BLOCK_SIZE;
        }
        l2, digest := HashPart(image, h, i - 1, imgCurr, blkMod, l2, hashCurr, l2Size);
      }
      if i == 1 {
        part1 := Some(digest);
      }
      i := i + 1;
    }
    assert Blocks(image)[..blkNum] == Blocks(image);
    if |image| > BLOCK_SIZE {
      r := Some(h(l2));
    } else {
      r := part1;
    }
  }

  // ---------- tiling and alignment ----------

  /** The blocks are the image, cut at every BLOCK_SIZE bytes. */
  lemma {:induction false} BlocksTile(image: Bytes)
    ensures Concat(Blocks(image)) == image
    ensures forall i | 0 <= i < |Blocks(image)| ::
              && 0 < |Blocks(image)[i]| <= BLOCK_SIZE
              && (i < |Blocks(image)| - 1 ==> |Blocks(image)[i]| == BLOCK_SIZE)
    decreases |image|
  {
    if |image| > BLOCK_SIZE {
      BlocksTile(image[BLOCK_SIZE..]);
      assert image == image[..BLOCK_SIZE] + image[BLOCK_SIZE..];
      var b := Blocks(image);
      assert b[1..] == Blocks(image[BLOCK_SIZE..]);
      forall i | 0 < i < |b| ensures b[i] == b[1..][i - 1] {}
    } else if image != [] {
      assert Concat([image]) == image + Concat([]);
    }
  }

  lemma AlignUpLeast(n: nat)
    ensures AlignUp(n) % HASH_BLOCK_SIZE == 0 && n <= AlignUp(n) < n + HASH_BLOCK_SIZE
  {
  }

  /** The level-2 file is the shortest whole number of hash blocks that holds all digests. */
  lemma Level2Aligned(image: Bytes, h: Bytes -> Digest)
    ensures |Level2(image, h)| % HASH_BLOCK_SIZE == 0
    ensures HASH_SIZE * |Blocks(image)| <= |Level2(image, h)| < HASH_SIZE * |Blocks(image)| + HASH_BLOCK_SIZE
  {
    AlignUpLeast(HASH_SIZE * |Blocks(image)|);
  }

  /** file holds the digest of every stretch of BLOCK_SIZE bytes of the image, the last one possibly
      shorter, one after the other, and then zeros up to a multiple of HASH_BLOCK_SIZE. */
  ghost predicate DigestFile(file: Bytes, image: Bytes, h: Bytes -> Digest) {
    var n := BlocksFor(|image|);
    && |file| % HASH_BLOCK_SIZE == 0 && HASH_SIZE * n <= |file| < HASH_SIZE * n + HASH_BLOCK_SIZE
    && (forall k | 0 <= k < n ::
          file[HASH_SIZE * k..HASH_SIZE * k + HASH_SIZE] ==
            h(image[BLOCK_SIZE * k..if k < n - 1 then BLOCK_SIZE * k + BLOCK_SIZE else |image|]))
    && forall i | HASH_SIZE * n <= i < |file| :: file[i] == 0
  }

  /** How many blocks an image of n bytes has. */
  function BlocksFor(n: nat): nat { n / BLOCK_SIZE + if n % BLOCK_SIZE != 0 then 1 else 0 }

  lemma Level2IsDigestFile(image: Bytes, h: Bytes -> Digest)
    ensures DigestFile(Level2(image, h), image, h)
  {
    BlockCount(image);
    Level2Aligned(image, h);
    var parts, n := Blocks(image), BlocksFor(|image|);
    var file, d := Level2(image, h), Digests(parts, h);
    forall k | 0 <= k < n
      ensures file[HASH_SIZE * k..HASH_SIZE * k + HASH_SIZE] ==
                h(image[BLOCK_SIZE * k..if k < n - 1 then BLOCK_SIZE * k + BLOCK_SIZE else |image|])
    {
      BlockAt(image, k, BLOCK_SIZE * k, if k < n - 1 then BLOCK_SIZE * k + BLOCK_SIZE else |image|);
      DigestInFile(parts, h, k, AlignUp(|d|) - |d|);
    }
  }

  lemma DigestInFile(parts: seq<Bytes>, h: Bytes -> Digest, k: nat, z: nat)
    requires k < |parts|
    ensures (Digests(parts, h) + Zeros(z))[HASH_SIZE * k..HASH_SIZE * k + HASH_SIZE] == h(parts[k])
  {
    DigestAt(parts, h, k);
    var lo := HASH_SIZE * k;
    assert (Digests(parts, h) + Zeros(z))[lo..lo + HASH_SIZE] == Digests(parts, h)[lo..lo + HASH_SIZE];
  }

  /** What the script leaves in the hash file: the hash of the image itself when it is one block, of the
      file of block digests when it is more, and nothing for an empty image. */
  lemma HashOfMeans(image: Bytes, h: Bytes -> Digest) returns (file: Bytes)
    ensures HashOf(image, h) ==
            if image == [] then None else if |image| <= BLOCK_SIZE then Some(h(image)) else Some(h(file))
    ensures DigestFile(file, image, h)
  {
    file := Level2(image, h);
    Level2IsDigestFile(image, h);
  }

  // ---------- binding ----------

  /** A block of a and a block of b, or what was hashed last for each, collide under h. */
  ghost predicate Collide(a: Bytes, b: Bytes, h: Bytes -> Digest) {
    || (Root(a, h) != Root(b, h) && h(Root(a, h)) == h(Root(b, h)))
    || (exists i, j | 0 <= i < |Blocks(a)| && 0 <= j < |Blocks(b)| ::
          Blocks(a)[i] != Blocks(b)[j] && h(Blocks(a)[i]) == h(Blocks(b)[j]))
  }

  /** x is given to h when the script hashes image a. */
  predicate Hashed(x: Bytes, a: Bytes, h: Bytes -> Digest) {
    x in Blocks(a) || x == Root(a, h)
  }

  /** Any two of all the inputs h gets for a and b collide. */
  ghost predicate CollideAnywhere(a: Bytes, b: Bytes, h: Bytes -> Digest) {
    exists x, y | (Hashed(x, a, h) || Hashed(x, b, h)) && (Hashed(y, a, h) || Hashed(y, b, h)) ::
      x != y && h(x) == h(y)
  }

  /** a is the level-2 file of b, or b is a and one more block that has the padding for its digest. */
  ghost predicate Twins(a: Bytes, b: Bytes, h: Bytes -> Digest) {
    || (|a| <= BLOCK_SIZE < |b| && a == Level2(b, h))
    || (&& |a| > BLOCK_SIZE && |a| % BLOCK_SIZE == 0 && |Blocks(a)| % 2 == 1
        && |a| < |b| <= |a| + BLOCK_SIZE
        && b[..|a|] == a && h(b[|a|..]) == Zeros(HASH_SIZE))
  }

  /** Images of m and of n bytes can be twins. */
  predicate MayBeTwins(m: nat, n: nat) {
    || (m <= BLOCK_SIZE < n && m == AlignUp(HASH_SIZE * BlocksFor(n)))
    || (m > BLOCK_SIZE && m % BLOCK_SIZE == 0 && BlocksFor(m) % 2 == 1 && m < n <= m + BLOCK_SIZE)
  }

  predicate Confusable(m: nat, n: nat) { MayBeTwins(m, n) || MayBeTwins(n, m) }

  function Last(parts: seq<Bytes>): Bytes {
    if parts == [] then [] else parts[|parts| - 1]
  }

  lemma {:induction false} DigestAt(parts: seq<Bytes>, h: Bytes -> Digest, i: nat)
    requires i < |parts|
    ensures Digests(parts, h)[HASH_SIZE * i..HASH_SIZE * i + HASH_SIZE] == h(parts[i])
  {
    if i > 0 {
      DigestAt(parts[1..], h, i - 1);
      assert Digests(parts, h) == h(parts[0]) + Digests(parts[1..], h);
    }
  }

  lemma SameDigests(a: seq<Bytes>, b: seq<Bytes>, h: Bytes -> Digest, i: nat, za: nat, zb: nat)
    requires i < |a| && i < |b| && Digests(a, h) + Zeros(za) == Digests(b, h) + Zeros(zb)
    ensures h(a[i]) == h(b[i])
  {
    var lo := HASH_SIZE * i;
    DigestAt(a, h, i);
    DigestAt(b, h, i);
    assert (Digests(a, h) + Zeros(za))[lo..lo + HASH_SIZE] == Digests(a, h)[lo..lo + HASH_SIZE];
    assert (Digests(b, h) + Zeros(zb))[lo..lo + HASH_SIZE] == Digests(b, h)[lo..lo + HASH_SIZE];
  }

  lemma ZeroTail(d: Bytes, z: nat)
    requires z == HASH_SIZE
    ensures (d + Zeros(z))[|d|..|d| + HASH_SIZE] == Zeros(HASH_SIZE)
  {
  }

  lemma OneMoreBlock(na: nat, nb: nat, za: nat, zb: nat)
    requires na < nb && za == AlignUp(HASH_SIZE * na) - HASH_SIZE * na && HASH_SIZE * na + za == HASH_SIZE * nb + zb
    ensures nb == na + 1 && na % 2 == 1 && za == HASH_SIZE
  {
  }

  /** The longer of two block lists with one level-2 file has just one block more, with a zero digest. */
  lemma ExtraBlockIsZero(a: seq<Bytes>, b: seq<Bytes>, h: Bytes -> Digest, za: nat, zb: nat)
    requires |a| < |b| && za == AlignUp(HASH_SIZE * |a|) - HASH_SIZE * |a|
    requires Digests(a, h) + Zeros(za) == Digests(b, h) + Zeros(zb)
    ensures |b| == |a| + 1 && |a| % 2 == 1 && h(Last(b)) == Zeros(HASH_SIZE)
  {
    var d, e, lo := Digests(a, h), Digests(b, h), HASH_SIZE * |a|;
    assert |d + Zeros(za)| == |e + Zeros(zb)|;
    OneMoreBlock(|a|, |b|, za, zb);
    DigestAt(b, h, |a|);
    ZeroTail(d, za);
    assert (e + Zeros(zb))[lo..lo + HASH_SIZE] == e[lo..lo + HASH_SIZE];
  }

  lemma {:induction false} ConcatAppend(parts: seq<Bytes>, p: Bytes)
    ensures Concat(parts + [p]) == Concat(parts) + p
  {
    if parts == [] {
      assert Concat([p]) == p + Concat([]);
    } else {
      assert (parts + [p])[1..] == parts[1..] + [p];
      ConcatAppend(parts[1..], p);
    }
  }

  lemma AllButLast(x: seq<Bytes>, y: seq<Bytes>)
    requires |y| == |x| + 1 && forall i | 0 <= i < |x| :: x[i] == y[i]
    ensures y == x + [Last(y)]
  {
  }

  lemma OneBlockMore(a: Bytes, b: Bytes, p: Bytes)
    requires a != [] && Blocks(b) == Blocks(a) + [p]
    ensures b == a + p && |a| % BLOCK_SIZE == 0 && 0 < |p| <= BLOCK_SIZE
  {
    var k := |Blocks(a)|;
    BlocksTile(a);
    BlocksTile(b);
    ConcatAppend(Blocks(a), p);
    assert Blocks(b)[k] == p && Blocks(b)[k - 1] == Last(Blocks(a));
    LastBlockFull(a);
  }

  /** Of two multi-block images with one level-2 file and no collision, the one with fewer blocks is
      the other's twin. */
  lemma ShorterIsTwin(a: Bytes, b: Bytes, h: Bytes -> Digest)
    requires |a| > BLOCK_SIZE && |Blocks(a)| < |Blocks(b)| && Level2(a, h) == Level2(b, h) && !Collide(a, b, h)
    ensures Twins(a, b, h)
  {
    var pa, pb := Blocks(a), Blocks(b);
    var za, zb := AlignUp(HASH_SIZE * |pa|) - HASH_SIZE * |pa|, AlignUp(HASH_SIZE * |pb|) - HASH_SIZE * |pb|;
    ExtraBlockIsZero(pa, pb, h, za, zb);
    forall i | 0 <= i < |pa| ensures pa[i] == pb[i] {
      SameDigests(pa, pb, h, i, za, zb);
    }
    AllButLast(pa, pb);
    OneBlockMore(a, b, Last(pb));
  }

  lemma {:induction false} LastBlockFull(image: Bytes)
    requires image != [] && |Last(Blocks(image))| == BLOCK_SIZE
    ensures |image| % BLOCK_SIZE == 0
    decreases |image|
  {
    if |image| > BLOCK_SIZE {
      LastBlockFull(image[BLOCK_SIZE..]);
    }
  }

  /** Of two images with as many blocks and one level-2 file some block differs and collides. */
  lemma SameCountCollides(a: Bytes, b: Bytes, h: Bytes -> Digest)
    requires a != b && |Blocks(a)| == |Blocks(b)| && Level2(a, h) == Level2(b, h)
    ensures Collide(a, b, h)
  {
    BlocksTile(a);
    BlocksTile(b);
    var pa, pb := Blocks(a), Blocks(b);
    assert pa != pb;
    var i :| 0 <= i < |pa| && pa[i] != pb[i];
    var z := AlignUp(HASH_SIZE * |pa|) - HASH_SIZE * |pa|;
    SameDigests(pa, pb, h, i, z, z);
  }

  /** Different images that exhibit no collision of h have one hash exactly if they are twins. */
  lemma SameHashExactly(a: Bytes, b: Bytes, h: Bytes -> Digest)
    requires a != [] && b != [] && a != b && !Collide(a, b, h)
    ensures HashOf(a, h) == HashOf(b, h) <==> Twins(a, b, h) || Twins(b, a, h)
  {
    if Twins(a, b, h) {
      TwinsPass(a, b, h);
    } else if Twins(b, a, h) {
      TwinsPass(b, a, h);
    } else if HashOf(a, h) == HashOf(b, h) {
      assert Root(a, h) == Root(b, h);
      assert |a| > BLOCK_SIZE && |b| > BLOCK_SIZE;
      if |Blocks(a)| == |Blocks(b)| {
        SameCountCollides(a, b, h);
      } else if |Blocks(a)| < |Blocks(b)| {
        ShorterIsTwin(a, b, h);
      } else {
        CollideSymmetric(b, a, h);
        ShorterIsTwin(b, a, h);
      }
    }
  }

  lemma CollideSymmetric(a: Bytes, b: Bytes, h: Bytes -> Digest)
    ensures Collide(a, b, h) ==> Collide(b, a, h)
  {
  }

  /** Twins have one hash, whatever the hash function. */
  lemma TwinsPass(a: Bytes, b: Bytes, h: Bytes -> Digest)
    requires a != [] && Twins(a, b, h)
    ensures a != b && HashOf(a, h) == HashOf(b, h)
  {
    if |a| > BLOCK_SIZE {
      var z := b[|a|..];
      assert b == a + z;
      AppendKeepsLevel2(a, z, h);
    }
  }

  lemma AppendKeepsLevel2(a: Bytes, z: Bytes, h: Bytes -> Digest)
    requires |a| % BLOCK_SIZE == 0 && |Blocks(a)| % 2 == 1 && 0 < |z| <= BLOCK_SIZE && h(z) == Zeros(HASH_SIZE)
    ensures Blocks(a + z) == Blocks(a) + [z] && Level2(a + z, h) == Level2(a, h)
  {
    BlocksOfAppended(a, z);
    DigestsAppend(Blocks(a), z, h);
    var d, e := Digests(Blocks(a), h), Digests(Blocks(a + z), h);
    assert e == d + Zeros(HASH_SIZE);
    OddBlocks(|Blocks(a)|);
    SamePaddedDigests(d, e);
  }

  lemma OddBlocks(n: nat)
    requires n % 2 == 1
    ensures (HASH_SIZE * n) % HASH_BLOCK_SIZE == HASH_SIZE
  {
  }

  lemma SamePaddedDigests(d: Bytes, e: Bytes)
    requires |d| % HASH_BLOCK_SIZE == HASH_SIZE && e == d + Zeros(HASH_SIZE)
    ensures d + Zeros(AlignUp(|d|) - |d|) == e + Zeros(AlignUp(|e|) - |e|)
  {
  }

  lemma {:induction false} BlocksOfAppended(a: Bytes, z: Bytes)
    requires |a| % BLOCK_SIZE == 0 && 0 < |z| <= BLOCK_SIZE
    ensures Blocks(a + z) == Blocks(a) + [z]
    decreases |a|
  {
    if a == [] {
      assert a + z == z;
    } else {
      assert (a + z)[..BLOCK_SIZE] == a[..BLOCK_SIZE];
      assert (a + z)[BLOCK_SIZE..] == a[BLOCK_SIZE..] + z;
      BlocksOfAppended(a[BLOCK_SIZE..], z);
      if |a| == BLOCK_SIZE {
        assert a[BLOCK_SIZE..] == [] && a[..BLOCK_SIZE] == a;
      }
    }
  }

  lemma TwinLengths(a: Bytes, b: Bytes, h: Bytes -> Digest)
    requires Twins(a, b, h)
    ensures MayBeTwins(|a|, |b|)
  {
    BlockCount(a);
    BlockCount(b);
  }

  // Twins without any collision, for all lengths that allow twins.

  function Repeat(v: byte, n: nat): (z: Bytes)
    ensures |z| == n
  {
    seq(n, _ => v)
  }

  /** A hash function that tells whole zero blocks, other zeros, twos and the rest apart. */
  function TellApart(x: Bytes): Digest {
    if x == [] || x[0] == 2 then Zeros(HASH_SIZE)
    else if x[0] == 0 then Repeat(if |x| == BLOCK_SIZE then 1 else 4, HASH_SIZE)
    else Repeat(3, HASH_SIZE)
  }

  lemma {:induction false} BlocksOfZeros(n: nat)
    ensures forall x | x in Blocks(Zeros(n)) :: x == Zeros(BLOCK_SIZE) || x == Zeros(n % BLOCK_SIZE)
    ensures forall x | x in Blocks(Zeros(n)) :: x != []
    ensures n > BLOCK_SIZE ==> Blocks(Zeros(n))[0] == Zeros(BLOCK_SIZE)
  {
    if n > BLOCK_SIZE {
      assert Zeros(n)[..BLOCK_SIZE] == Zeros(BLOCK_SIZE);
      assert Zeros(n)[BLOCK_SIZE..] == Zeros(n - BLOCK_SIZE);
      BlocksOfZeros(n - BLOCK_SIZE);
    }
  }

  /** The level-2 file of an image that starts with a zero block starts with the digest of that. */
  lemma Level2Starts(image: Bytes)
    requires |image| > BLOCK_SIZE && image[..BLOCK_SIZE] == Zeros(BLOCK_SIZE)
    ensures Level2(image, TellApart)[0] == 1
  {
    var parts := Blocks(image);
    assert parts[0] == Zeros(BLOCK_SIZE);
    assert Digests(parts, TellApart) == TellApart(parts[0]) + Digests(parts[1..], TellApart);
  }

  /** Whole zero blocks, x and a level-2 file that starts with 1 do not collide. */
  lemma NoneCollide(a: Bytes, b: Bytes, root: Bytes, n: nat, x: Bytes)
    requires (n < BLOCK_SIZE && x == Zeros(n)) || x == Repeat(2, n)
    requires root != [] && root[0] == 1
    requires forall y | Hashed(y, a, TellApart) || Hashed(y, b, TellApart) :: y == Zeros(BLOCK_SIZE) || y == x || y == root
    ensures !CollideAnywhere(a, b, TellApart)
  {
    assert TellApart(Zeros(BLOCK_SIZE))[0] == 1 && TellApart(root)[0] == 3;
    assert TellApart(x)[0] == 0 || TellApart(x)[0] == 4;
  }

  lemma Level2Twins(m: nat, n: nat) returns (a: Bytes, b: Bytes)
    requires m <= BLOCK_SIZE < n && m == AlignUp(HASH_SIZE * BlocksFor(n))
    ensures |a| == m && |b| == n && Twins(a, b, TellApart) && !CollideAnywhere(a, b, TellApart)
  {
    b := Zeros(n);
    a := Level2(b, TellApart);
    BlockCount(b);
    BlocksOfZeros(n);
    assert b[..BLOCK_SIZE] == Zeros(BLOCK_SIZE);
    Level2Starts(b);
    assert Blocks(a) == [a];
    NoneCollide(a, b, a, n % BLOCK_SIZE, Zeros(n % BLOCK_SIZE));
  }

  lemma PaddedTwins(m: nat, n: nat) returns (a: Bytes, b: Bytes)
    requires m > BLOCK_SIZE && m % BLOCK_SIZE == 0 && BlocksFor(m) % 2 == 1 && m < n <= m + BLOCK_SIZE
    ensures |a| == m && |b| == n && Twins(a, b, TellApart) && !CollideAnywhere(a, b, TellApart)
  {
    a := Zeros(m);
    var z := Repeat(2, n - m);
    b := a + z;
    BlockCount(a);
    assert b[..m] == a && b[m..] == z && a[..BLOCK_SIZE] == Zeros(BLOCK_SIZE);
    AppendKeepsLevel2(a, z, TellApart);
    Level2Starts(a);
    ZerosAndOneMore(m, z, b);
    NoneCollide(a, b, Level2(a, TellApart), n - m, z);
  }

  lemma ZerosAndOneMore(m: nat, z: Bytes, b: Bytes)
    requires m > BLOCK_SIZE && m % BLOCK_SIZE == 0 && Blocks(b) == Blocks(Zeros(m)) + [z]
    ensures forall x | x in Blocks(Zeros(m)) || x in Blocks(b) :: x == Zeros(BLOCK_SIZE) || x == z
  {
    BlocksOfZeros(m);
  }

  /** Whatever the hash function, images of m and n bytes with one hash show a collision between two
      blocks or between what was hashed last. */
  ghost predicate Binds(m: nat, n: nat) {
    forall a, b, h | |a| == m && |b| == n && a != b && HashOf(a, h) == HashOf(b, h) :: Collide(a, b, h)
  }

  /** The weakest form of it: some two of all inputs of the hash function collide. */
  ghost predicate BindsAnywhere(m: nat, n: nat) {
    forall a, b, h | |a| == m && |b| == n && a != b && HashOf(a, h) == HashOf(b, h) :: CollideAnywhere(a, b, h)
  }

  /** Binding holds for exactly the lengths that cannot be confused, equal lengths among them; for the
      others it fails in the weakest form too. */
  lemma BindingExactly(m: nat, n: nat)
    requires m > 0 && n > 0
    ensures Binds(m, n) <==> !Confusable(m, n)
    ensures BindsAnywhere(m, n) <==> !Confusable(m, n)
  {
    if Confusable(m, n) {
      NotBound(m, n);
    } else {
      forall a, b, h | |a| == m && |b| == n && a != b && HashOf(a, h) == HashOf(b, h)
        ensures Collide(a, b, h) && CollideAnywhere(a, b, h)
      {
        if !Collide(a, b, h) {
          SameHashExactly(a, b, h);
          if Twins(a, b, h) { TwinLengths(a, b, h); } else { TwinLengths(b, a, h); }
        }
        CollideThenAnywhere(a, b, h);
      }
    }
  }

  lemma CollideThenAnywhere(a: Bytes, b: Bytes, h: Bytes -> Digest)
    requires Collide(a, b, h)
    ensures CollideAnywhere(a, b, h)
  {
    var x, y := Root(a, h), Root(b, h);
    if x == y || h(x) != h(y) {
      var i, j :| 0 <= i < |Blocks(a)| && 0 <= j < |Blocks(b)|
                  && Blocks(a)[i] != Blocks(b)[j] && h(Blocks(a)[i]) == h(Blocks(b)[j]);
      x, y := Blocks(a)[i], Blocks(b)[j];
    }
    assert Hashed(x, a, h) && Hashed(y, b, h);
  }

  lemma NotBound(m: nat, n: nat)
    requires m > 0 && n > 0 && Confusable(m, n)
    ensures !Binds(m, n) && !BindsAnywhere(m, n)
  {
    var a, b := [], [];
    var p, q := if MayBeTwins(m, n) then m else n, if MayBeTwins(m, n) then n else m;
    if p <= BLOCK_SIZE { a, b := Level2Twins(p, q); } else { a, b := PaddedTwins(p, q); }
    TwinsPass(a, b, TellApart);
    if Collide(a, b, TellApart) { CollideThenAnywhere(a, b, TellApart); }
    if Collide(b, a, TellApart) { CollideThenAnywhere(b, a, TellApart); }
    assert CollideAnywhere(a, b, TellApart) <==> CollideAnywhere(b, a, TellApart);
    if MayBeTwins(m, n) {
      assert |a| == m && |b| == n;
    } else {
      assert |b| == m && |a| == n;
    }
  }

  // ---------- pad_image ----------

  /** pad is the padded form of image for pad size p. */
  ghost predicate PadOf(pad: Bytes, image: Bytes, p: nat) {
    && p > 0
    && |pad| % p == 0 && |image| <= |pad| < |image| + p
    && pad == image + Zeros(|pad| - |image|)
  }

  /** pad_image; a pad size of 0 is a division by zero and ends the script. */
  method PadImage(image: Bytes, p: nat) returns (r: Option<Bytes>)
    ensures r.None? <==> p == 0
    ensures r.Some? ==> PadOf(r.value, image, p)
  {
    if p == 0 {
      return None;
    }
    var imgSize := |image|;
    var mod := p - imgSize % p;
    var aligned;
    if mod == p {
      aligned := imgSize;
    } else {
      aligned := imgSize + mod;
      NextMultiple(imgSize, p);
    }
    r := Some(WriteAt(Zeros(aligned), 0, image));
  }

  lemma NextMultiple(n: nat, p: nat)
    requires p > 0
    ensures (n + (p - n % p)) % p == 0
  {
    assert n == (n / p) * p + n % p;
    assert n + (p - n % p) == (n / p + 1) * p + 0;
    ModMultiple(n / p + 1, 0, p);
  }

  /** There is one padded form only. */
  lemma PadUnique(x: Bytes, y: Bytes, image: Bytes, p: nat)
    requires PadOf(x, image, p) && PadOf(y, image, p)
    ensures x == y
  {
    if |x| < |y| {
      NextInClass(|x|, |y|, p);
    } else if |y| < |x| {
      NextInClass(|y|, |x|, p);
    }
  }

  /** Padding a padded image again changes nothing. */
  lemma PadIdempotent(x: Bytes, y: Bytes, image: Bytes, p: nat)
    requires PadOf(x, image, p) && PadOf(y, x, p)
    ensures y == x
  {
    assert PadOf(x, x, p) by { assert x == x + Zeros(0); }
    PadUnique(x, y, x, p);
  }

  /** Two images have the same padded form exactly if the longer one is the shorter one with zeros
      appended, short of the next multiple of p. */
  lemma PadForgets(x: Bytes, y: Bytes, a: Bytes, b: Bytes, p: nat)
    requires PadOf(x, a, p) && PadOf(y, b, p) && |a| <= |b|
    ensures x == y <==> b == a + Zeros(|b| - |a|) && |b| <= |x|
  {
    if x == y {
      assert b == x[..|b|];
    }
    if b == a + Zeros(|b| - |a|) && |b| <= |x| {
      assert x == b + Zeros(|x| - |b|);
      PadUnique(x, y, b, p);
    }
  }
}
