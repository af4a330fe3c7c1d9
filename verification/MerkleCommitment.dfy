/** The ordered Merkle commitment of source identities, over an arbitrary 32-byte hash.  Binding is
    proved by extraction: two different identity sequences with one root yield two explicit,
    distinct hash inputs with equal digests. */
module MerkleCommitment {

  newtype byte = x: int | 0 <= x < 256

  type Bytes = seq<byte>

  /** SHA-256, of which only the digest length matters here. */
  type Hash = Bytes -> Bytes

  const DIGEST_LENGTH: nat := 32
  const ID_LENGTH: nat := 64

  ghost predicate FixedLength(hash: Hash) {
    forall b :: |hash(b)| == DIGEST_LENGTH
  }

  // ---- Encodings --------------------------------------------------------------------------

  predicate IsAscii(s: string) {
    forall i | 0 <= i < |s| :: s[i] < 128 as char
  }

  function Ascii(s: string): (b: Bytes)
    requires IsAscii(s)
    ensures |b| == |s|
  {
    seq(|s|, i requires 0 <= i < |s| => s[i] as int as byte)
  }

  const LEAF_DOMAIN: Bytes := Ascii("acfqp:v072-source-recipe-merkle-leaf:v1") + [0]
  const NODE_DOMAIN: Bytes := Ascii("acfqp:v072-source-recipe-merkle-node:v1") + [0]

  function BigEndian(n: nat, width: nat): (b: Bytes)
    ensures |b| == width
    decreases width
  {
    if width == 0 then [] else BigEndian(n / 256, width - 1) + [(n % 256) as byte]
  }

  ghost function Capacity(width: nat): nat {
    if width == 0 then 1 else 256 * Capacity(width - 1)
  }

  lemma {:induction false} BigEndianInjective(m: nat, n: nat, width: nat)
    requires m < Capacity(width) && n < Capacity(width) && BigEndian(m, width) == BigEndian(n, width)
    ensures m == n
    decreases width
  {
    if width > 0 {
      var a, b := BigEndian(m, width), BigEndian(n, width);
      assert a[..width - 1] == BigEndian(m / 256, width - 1) && b[..width - 1] == BigEndian(n / 256, width - 1);
      assert a[width - 1] == b[width - 1];
      BigEndianInjective(m / 256, n / 256, width - 1);
    }
  }

  predicate IsHexDigit(c: char) {
    '0' <= c <= '9' || 'a' <= c <= 'f'
  }

  function HexValue(c: char): (v: nat)
    requires IsHexDigit(c)
    ensures v < 16
  {
    if c <= '9' then c as int - '0' as int else c as int - 'a' as int + 10
  }

  /** One lowercase SHA-256 identity: 64 lowercase hexadecimal characters. */
  predicate IsId(s: string) {
    |s| == ID_LENGTH && forall i | 0 <= i < |s| :: IsHexDigit(s[i])
  }

  function FromHex(s: string): (b: Bytes)
    requires |s| % 2 == 0 && forall i | 0 <= i < |s| :: IsHexDigit(s[i])
    ensures |b| == |s| / 2
  {
    seq(|s| / 2, i requires 0 <= i < |s| / 2 => (16 * HexValue(s[2 * i]) + HexValue(s[2 * i + 1])) as byte)
  }

  lemma FromHexInjective(s: string, t: string)
    requires IsId(s) && IsId(t) && FromHex(s) == FromHex(t)
    ensures s == t
  {
    forall j | 0 <= j < ID_LENGTH
      ensures s[j] == t[j]
    {
      var i := j / 2;
      assert FromHex(s)[i] == FromHex(t)[i];
      assert j == 2 * i || j == 2 * i + 1;
      assert HexValue(s[2 * i]) == HexValue(t[2 * i]) && HexValue(s[2 * i + 1]) == HexValue(t[2 * i + 1]);
    }
  }

  function LeafInput(role: Bytes, index: nat, value: Bytes): Bytes {
    LEAF_DOMAIN + role + [0] + BigEndian(index, 8) + value
  }

  function NodeInput(left: Bytes, right: Bytes): Bytes {
    NODE_DOMAIN + left + right
  }

  function EmptyInput(role: Bytes): Bytes {
    NODE_DOMAIN + role + [0] + Ascii("EMPTY")
  }

  // ---- The tree behind the reduction ------------------------------------------------------

  datatype Tree = Leaf(index: nat, value: Bytes) | Node(left: Tree, right: Tree)

  function Digest(hash: Hash, role: Bytes, t: Tree): Bytes {
    match t
    case Leaf(index, value) => hash(LeafInput(role, index, value))
    case Node(left, right) => hash(NodeInput(Digest(hash, role, left), Digest(hash, role, right)))
  }

  ghost function Leaves(t: Tree): set<(nat, Bytes)> {
    match t
    case Leaf(index, value) => {(index, value)}
    case Node(left, right) => Leaves(left) + Leaves(right)
  }

  /** Duplicating the last node of an odd level. */
  function Padded<T>(level: seq<T>): seq<T>
    requires |level| > 0
  {
    if |level| % 2 == 1 then level + [level[|level| - 1]] else level
  }

  ghost function Paired(level: seq<Tree>): seq<Tree>
    requires |level| > 0
  {
    var padded := Padded(level);
    seq(|padded| / 2, i requires 0 <= i < |padded| / 2 => Node(padded[2 * i], padded[2 * i + 1]))
  }

  ghost function RootOf(level: seq<Tree>): Tree
    requires |level| > 0
    decreases |level|
  {
    if |level| == 1 then level[0] else RootOf(Paired(level))
  }

  ghost function LeafLevel(values: seq<string>): (level: seq<Tree>)
    requires forall i | 0 <= i < |values| :: IsId(values[i])
    ensures |level| == |values|
  {
    seq(|values|, i requires 0 <= i < |values| && IsId(values[i]) => Leaf(i, FromHex(values[i])))
  }

  ghost function LevelLeaves(level: seq<Tree>): set<(nat, Bytes)> {
    set i, leaf | 0 <= i < |level| && leaf in Leaves(level[i]) :: leaf
  }

  lemma PairedKeepsLeaves(level: seq<Tree>)
    requires |level| > 0
    ensures LevelLeaves(Paired(level)) == LevelLeaves(level)
  {
    var padded, paired := Padded(level), Paired(level);
    forall leaf | leaf in LevelLeaves(level)
      ensures leaf in LevelLeaves(paired)
    {
      var i :| 0 <= i < |level| && leaf in Leaves(level[i]);
      assert padded[i] == level[i];
      var j := i / 2;
      assert paired[j] == Node(padded[2 * j], padded[2 * j + 1]);
      assert i == 2 * j || i == 2 * j + 1;
      assert 0 <= j < |paired| && leaf in Leaves(paired[j]);
    }
    forall leaf | leaf in LevelLeaves(paired)
      ensures leaf in LevelLeaves(level)
    {
      var j :| 0 <= j < |paired| && leaf in Leaves(paired[j]);
      assert paired[j] == Node(padded[2 * j], padded[2 * j + 1]);
      var i := if leaf in Leaves(padded[2 * j]) then 2 * j else 2 * j + 1;
      var k := if i < |level| then i else |level| - 1;
      assert level[k] == padded[i];
      assert 0 <= k < |level| && leaf in Leaves(level[k]);
    }
  }

  lemma {:induction false} RootKeepsLeaves(level: seq<Tree>)
    requires |level| > 0
    ensures Leaves(RootOf(level)) == LevelLeaves(level)
    decreases |level|
  {
    if |level| == 1 {
      assert LevelLeaves(level) == Leaves(level[0]);
    } else {
      RootKeepsLeaves(Paired(level));
      PairedKeepsLeaves(level);
    }
  }

  // ---- The commitment loop ----------------------------------------------------------------

  datatype Commitment = Commitment(count: nat, root: Bytes) | InvalidIdentity

  ghost predicate AllIds(values: seq<string>) {
    forall i | 0 <= i < |values| :: IsId(values[i])
  }

  /** The committed root as a function of the identities. */
  ghost function Root(hash: Hash, role: Bytes, values: seq<string>): Bytes
    requires AllIds(values)
  {
    if |values| == 0 then hash(EmptyInput(role)) else Digest(hash, role, RootOf(LeafLevel(values)))
  }

  ghost predicate AreDigests(hash: Hash, role: Bytes, level: seq<Bytes>, trees: seq<Tree>) {
    |level| == |trees| && forall i | 0 <= i < |level| :: level[i] == Digest(hash, role, trees[i])
  }

  /** The leaf digests, or `false` at the first string that is not an identity. */
  method HashLeaves(hash: Hash, role: Bytes, values: seq<string>) returns (valid: bool, level: seq<Bytes>)
    ensures valid <==> AllIds(values)
    ensures valid ==> AreDigests(hash, role, level, LeafLevel(values))
  {
    level := [];
    for n := 0 to |values|
      invariant |level| == n && forall i | 0 <= i < n ::
                  IsId(values[i]) && level[i] == hash(LeafInput(role, i, FromHex(values[i])))
    {
      if !IsId(values[n]) {
        return false, [];
      }
      level := level + [hash(LeafInput(role, n, FromHex(values[n])))];
    }
    valid := true;
  }

  /** One reduction: duplicate the last odd digest and hash adjacent pairs. */
  method ReduceLevel(hash: Hash, role: Bytes, level: seq<Bytes>, ghost trees: seq<Tree>) returns (next: seq<Bytes>)
    requires |level| > 0 && AreDigests(hash, role, level, trees)
    ensures AreDigests(hash, role, next, Paired(trees))
  {
    hide Digest, NodeInput, Paired;
    var padded := Padded(level);
    assert AreDigests(hash, role, padded, Padded(trees));
    PairedAt(hash, role, trees);
    next := [];
    for i := 0 to |padded| / 2
      invariant |next| == i && forall j | 0 <= j < i :: next[j] == Digest(hash, role, Paired(trees)[j])
    {
      next := next + [hash(NodeInput(padded[2 * i], padded[2 * i + 1]))];
    }
  }

  lemma PairedAt(hash: Hash, role: Bytes, trees: seq<Tree>)
    requires |trees| > 0
    ensures |Paired(trees)| == |Padded(trees)| / 2
    ensures forall i {:trigger Paired(trees)[i]} | 0 <= i < |Paired(trees)| ::
              Digest(hash, role, Paired(trees)[i])
              == hash(NodeInput(Digest(hash, role, Padded(trees)[2 * i]), Digest(hash, role, Padded(trees)[2 * i + 1])))
  {
    hide NodeInput;
  }

  method OrderedMerkleCommitment(hash: Hash, role: Bytes, values: seq<string>) returns (c: Commitment)
    requires |values| <= Capacity(8)
    ensures c == if AllIds(values) then Commitment(|values|, Root(hash, role, values)) else InvalidIdentity
  {
    hide Digest, Paired, LeafLevel, IsId;
    var valid, level := HashLeaves(hash, role, values);
    if !valid {
      return InvalidIdentity;
    }
    if |level| == 0 {
      return Commitment(0, hash(EmptyInput(role)));
    }
    ghost var trees := LeafLevel(values);
    while |level| > 1
      invariant |level| > 0 && AreDigests(hash, role, level, trees)
      invariant RootOf(trees) == RootOf(LeafLevel(values))
      decreases |level|
    {
      PairedShrinks(trees);
      level := ReduceLevel(hash, role, level, trees);
      trees := Paired(trees);
    }
    return Commitment(|values|, level[0]);
  }

  lemma PairedShrinks(level: seq<Tree>)
    requires |level| > 1
    ensures 0 < |Paired(level)| < |level|
  {
  }

  // ---- The shape of the tree and its inputs, byte by byte ---------------------------------

  lemma RootStep(level: seq<Tree>)
    requires |level| > 1
    ensures RootOf(level) == RootOf(Paired(level))
  {
    hide Paired;
  }

  /** An odd level above one node is reduced as if its last node stood twice. */
  lemma OddLevelRepeatsLast(level: seq<Tree>)
    requires |level| > 1 && |level| % 2 == 1
    ensures RootOf(level + [level[|level| - 1]]) == RootOf(level)
  {
    hide RootOf;
    var even := level + [level[|level| - 1]];
    assert Paired(even) == Paired(level);
    RootStep(even);
    RootStep(level);
  }

  /** An even level is reduced to its adjacent pairs; with the odd case and the single node this
      determines every root. */
  lemma EvenLevelPairs(level: seq<Tree>, next: seq<Tree>)
    requires |level| > 0 && |level| % 2 == 0 && |next| == |level| / 2
    requires forall i | 0 <= i < |next| :: next[i] == Node(level[2 * i], level[2 * i + 1])
    ensures RootOf(level) == RootOf(next)
  {
    hide RootOf;
    assert Paired(level) == next;
    RootStep(level);
  }

  lemma SingleNode(t: Tree)
    ensures RootOf([t]) == t
  {
  }

  /** Byte `k` of a big-endian integer is its digit of weight `256^(width - 1 - k)`. */
  lemma {:induction false} BigEndianDigits(n: nat, width: nat, k: nat)
    requires k < width
    ensures Capacity(width - 1 - k) > 0
    ensures BigEndian(n, width)[k] as int == n / Capacity(width - 1 - k) % 256
    decreases width
  {
    if k + 1 < width {
      BigEndianDigits(n / 256, width - 1, k);
      NestedDivision(n, Capacity(width - 2 - k));
    }
  }

  lemma NestedDivision(n: nat, c: nat)
    requires c > 0
    ensures n / 256 / c == n / (256 * c)
  {
    var q, d := n / 256, 256 * c;
    var u := q / c;
    assert u * c <= q < u * c + c;
    assert u * d == 256 * (u * c) && 256 * q <= n < 256 * q + 256;
    QuotientIs(n, d, u);
  }

  lemma QuotientIs(n: nat, d: nat, u: nat)
    requires u * d <= n < u * d + d
    ensures n / d == u
  {
    var v := n / d;
    assert v * d <= n < v * d + d;
    if u < v {
      Widen(u + 1, v, d);
    } else if v < u {
      Widen(v + 1, u, d);
    }
  }

  lemma Widen(x: nat, y: nat, d: nat)
    requires x <= y
    ensures x * d <= y * d && (x - 1) * d + d == x * d
  {
    var e: nat := y - x;
    assert e * d >= 0 && y * d == x * d + e * d;
  }

  const HEX_DIGITS: string := "0123456789abcdef"

  /** Every identity byte is written as two hexadecimal digits, high half first. */
  lemma FromHexWrites(s: string, i: nat)
    requires IsId(s) && i < 32
    ensures |FromHex(s)| == 32
    ensures HEX_DIGITS[FromHex(s)[i] as int / 16] == s[2 * i] && HEX_DIGITS[FromHex(s)[i] as int % 16] == s[2 * i + 1]
  {
    HexByte(s, i);
    hide FromHex, HexValue;
    DigitOf(s[2 * i]);
    DigitOf(s[2 * i + 1]);
  }

  lemma HexByte(s: string, i: nat)
    requires IsId(s) && i < 32
    ensures |FromHex(s)| == 32
    ensures FromHex(s)[i] as int / 16 == HexValue(s[2 * i]) && FromHex(s)[i] as int % 16 == HexValue(s[2 * i + 1])
  {
    var high, low := HexValue(s[2 * i]), HexValue(s[2 * i + 1]);
    assert FromHex(s)[i] as int == 16 * high + low;
  }

  lemma DigitOf(c: char)
    requires IsHexDigit(c)
    ensures HEX_DIGITS[HexValue(c)] == c
  {
    if c <= '9' {
      assert c == '0' || c == '1' || c == '2' || c == '3' || c == '4' || c == '5' || c == '6' || c == '7' || c == '8' || c == '9';
    } else {
      assert c == 'a' || c == 'b' || c == 'c' || c == 'd' || c == 'e' || c == 'f';
    }
  }

  /** The domain tags and the empty marker, as character codes. */
  lemma TagBytes(role: Bytes)
    ensures var leaf, node := "acfqp:v072-source-recipe-merkle-leaf:v1", "acfqp:v072-source-recipe-merkle-node:v1";
            && |LEAF_DOMAIN| == |leaf| + 1 && LEAF_DOMAIN[|leaf|] == 0
            && |NODE_DOMAIN| == |node| + 1 && NODE_DOMAIN[|node|] == 0
            && (forall i | 0 <= i < |leaf| :: LEAF_DOMAIN[i] as int == leaf[i] as int)
            && (forall i | 0 <= i < |node| :: NODE_DOMAIN[i] as int == node[i] as int)
    ensures EmptyInput(role) == NODE_DOMAIN + role + [0, 69, 77, 80, 84, 89]
  {
    assert Ascii("EMPTY") == [69, 77, 80, 84, 89];
  }

  lemma SmallIndex(n: nat)
    requires n < 256
    ensures BigEndian(n, 8) == [0, 0, 0, 0, 0, 0, 0, n as byte]
  {
    ZeroDigits(7);
    assert n / 256 == 0;
    assert BigEndian(n, 8) == BigEndian(0, 7) + [n as byte];
  }

  lemma {:induction false} ZeroDigits(width: nat)
    ensures BigEndian(0, width) == seq(width, i => 0)
  {
    if width > 0 {
      ZeroDigits(width - 1);
    }
  }

  /** A leaf digest: tag, role, separator, eight index bytes and the identity's bytes. */
  ghost function LeafHash(hash: Hash, role: Bytes, index: byte, value: string): Bytes
    requires IsId(value)
  {
    hash(LEAF_DOMAIN + role + [0, 0, 0, 0, 0, 0, 0, 0, index] + FromHex(value))
  }

  /** The root of three identities in bytes: the third leaf is paired with itself. */
  lemma RootOfThree(hash: Hash, role: Bytes, values: seq<string>)
    requires AllIds(values) && |values| == 3
    ensures var l0, l1, l2 := LeafHash(hash, role, 0, values[0]), LeafHash(hash, role, 1, values[1]), LeafHash(hash, role, 2, values[2]);
            Root(hash, role, values) == hash(NODE_DOMAIN + hash(NODE_DOMAIN + l0 + l1) + hash(NODE_DOMAIN + l2 + l2))
  {
    hide FromHex;
    var t0, t1, t2 := Leaf(0, FromHex(values[0])), Leaf(1, FromHex(values[1])), Leaf(2, FromHex(values[2]));
    assert LeafLevel(values) == [t0, t1, t2];
    TreeOfThree(t0, t1, t2);
    LeafBytes(role, 0, FromHex(values[0]));
    LeafBytes(role, 1, FromHex(values[1]));
    LeafBytes(role, 2, FromHex(values[2]));
    hide LeafInput;
    assert Digest(hash, role, Node(t0, t1)) == hash(NODE_DOMAIN + Digest(hash, role, t0) + Digest(hash, role, t1));
    assert Digest(hash, role, Node(t2, t2)) == hash(NODE_DOMAIN + Digest(hash, role, t2) + Digest(hash, role, t2));
  }

  lemma TreeOfThree(t0: Tree, t1: Tree, t2: Tree)
    ensures RootOf([t0, t1, t2]) == Node(Node(t0, t1), Node(t2, t2))
  {
    hide RootOf;
    var four, pair := [t0, t1, t2, t2], [Node(t0, t1), Node(t2, t2)];
    OddLevelRepeatsLast([t0, t1, t2]);
    assert [t0, t1, t2] + [t2] == four;
    EvenLevelPairs(four, pair);
    EvenLevelPairs(pair, [Node(pair[0], pair[1])]);
    SingleNode(Node(pair[0], pair[1]));
  }

  lemma LeafBytes(role: Bytes, n: nat, value: Bytes)
    requires n < 256
    ensures LeafInput(role, n, value) == LEAF_DOMAIN + role + [0, 0, 0, 0, 0, 0, 0, 0, n as byte] + value
  {
    SmallIndex(n);
    assert [0] + BigEndian(n, 8) == [0, 0, 0, 0, 0, 0, 0, 0, n as byte];
  }

  // ---- Binding ----------------------------------------------------------------------------

  ghost predicate Collision(hash: Hash, a: Bytes, b: Bytes) {
    a != b && hash(a) == hash(b)
  }

  lemma DomainsDiffer()
    ensures |LEAF_DOMAIN| == |NODE_DOMAIN| == 40
    ensures LEAF_DOMAIN[32] != NODE_DOMAIN[32]
  {
  }

  lemma LeafIsNotNode(role: Bytes, index: nat, value: Bytes, left: Bytes, right: Bytes)
    ensures LeafInput(role, index, value) != NodeInput(left, right)
  {
    DomainsDiffer();
    assert LeafInput(role, index, value)[32] == LEAF_DOMAIN[32];
    assert NodeInput(left, right)[32] == NODE_DOMAIN[32];
  }

  lemma EmptyIsNotLeaf(role: Bytes, index: nat, value: Bytes)
    ensures EmptyInput(role) != LeafInput(role, index, value)
  {
    DomainsDiffer();
    assert LeafInput(role, index, value)[32] == LEAF_DOMAIN[32];
    assert EmptyInput(role)[32] == NODE_DOMAIN[32];
  }

  lemma LeafInputInjective(role: Bytes, i: nat, v: Bytes, j: nat, w: Bytes)
    requires i < Capacity(8) && j < Capacity(8) && LeafInput(role, i, v) == LeafInput(role, j, w)
    ensures i == j && v == w
  {
    hide Capacity, BigEndian;
    var head := LEAF_DOMAIN + role + [0];
    var a, b := LeafInput(role, i, v), LeafInput(role, j, w);
    assert a[|head|..] == BigEndian(i, 8) + v;
    assert b[|head|..] == BigEndian(j, 8) + w;
    assert a[|head|..][..8] == BigEndian(i, 8) && b[|head|..][..8] == BigEndian(j, 8);
    assert a[|head|..][8..] == v && b[|head|..][8..] == w;
    BigEndianInjective(i, j, 8);
  }

  lemma NodeInputInjective(l: Bytes, r: Bytes, l': Bytes, r': Bytes)
    requires |l| == |l'| && NodeInput(l, r) == NodeInput(l', r')
    ensures l == l' && r == r'
  {
    var a, b := NodeInput(l, r), NodeInput(l', r');
    assert a[|NODE_DOMAIN|..] == l + r && b[|NODE_DOMAIN|..] == l' + r';
    assert l == (l + r)[..|l|] && l' == (l' + r')[..|l|];
    assert r == (l + r)[|l|..] && r' == (l' + r')[|l|..];
  }

  ghost predicate SmallIndices(t: Tree) {
    forall leaf | leaf in Leaves(t) :: leaf.0 < Capacity(8)
  }

  ghost function Preimage(hash: Hash, role: Bytes, t: Tree): Bytes {
    match t
    case Leaf(index, value) => LeafInput(role, index, value)
    case Node(left, right) => NodeInput(Digest(hash, role, left), Digest(hash, role, right))
  }

  lemma DigestIsHashOfPreimage(hash: Hash, role: Bytes, t: Tree)
    ensures Digest(hash, role, t) == hash(Preimage(hash, role, t))
  {
  }

  /** Equal hash inputs come from equal leaves, or from nodes with equal child digests. */
  lemma EqualPreimages(hash: Hash, role: Bytes, t: Tree, u: Tree)
    requires FixedLength(hash) && SmallIndices(t) && SmallIndices(u)
    requires Preimage(hash, role, t) == Preimage(hash, role, u)
    ensures t.Leaf? ==> t == u
    ensures t.Node? ==> (u.Node?
                         && Digest(hash, role, t.left) == Digest(hash, role, u.left)
                         && Digest(hash, role, t.right) == Digest(hash, role, u.right))
  {
    hide LeafInput, NodeInput, Digest, Capacity, BigEndian;
    match (t, u) {
      case (Leaf(i, v), Leaf(j, w)) =>
        assert (i, v) in Leaves(t) && (j, w) in Leaves(u);
        LeafInputInjective(role, i, v, j, w);
      case (Leaf(i, v), Node(l, r)) =>
        LeafIsNotNode(role, i, v, Digest(hash, role, l), Digest(hash, role, r));
      case (Node(l, r), Leaf(j, w)) =>
        LeafIsNotNode(role, j, w, Digest(hash, role, l), Digest(hash, role, r));
      case (Node(l, r), Node(l', r')) =>
        DigestLength(hash, role, l);
        DigestLength(hash, role, l');
        NodeInputInjective(Digest(hash, role, l), Digest(hash, role, r),
                           Digest(hash, role, l'), Digest(hash, role, r'));
    }
  }

  lemma DigestLength(hash: Hash, role: Bytes, t: Tree)
    requires FixedLength(hash)
    ensures |Digest(hash, role, t)| == DIGEST_LENGTH
  {
  }

  /** Every leaf and node input hashed for a tree. */
  ghost function TreeInputs(hash: Hash, role: Bytes, t: Tree): set<Bytes> {
    {Preimage(hash, role, t)}
    + match t
      case Leaf(_, _) => {}
      case Node(left, right) => TreeInputs(hash, role, left) + TreeInputs(hash, role, right)
  }

  /** Everything that is hashed to commit to a sequence. */
  ghost function Hashed(hash: Hash, role: Bytes, values: seq<string>): set<Bytes>
    requires AllIds(values)
  {
    if |values| == 0 then {EmptyInput(role)} else TreeInputs(hash, role, RootOf(LeafLevel(values)))
  }

  /** Two different trees with one digest contain a collision between one input of each. */
  lemma {:induction false} TreeCollision(hash: Hash, role: Bytes, t: Tree, u: Tree) returns (a: Bytes, b: Bytes)
    requires FixedLength(hash) && SmallIndices(t) && SmallIndices(u)
    requires t != u && Digest(hash, role, t) == Digest(hash, role, u)
    ensures Collision(hash, a, b)
    ensures a in TreeInputs(hash, role, t) && b in TreeInputs(hash, role, u)
    decreases t
  {
    hide Preimage, Digest, Capacity, FixedLength;
    a, b := Preimage(hash, role, t), Preimage(hash, role, u);
    DigestIsHashOfPreimage(hash, role, t);
    DigestIsHashOfPreimage(hash, role, u);
    if a == b {
      EqualPreimages(hash, role, t, u);
      if t.left != u.left {
        a, b := TreeCollision(hash, role, t.left, u.left);
      } else {
        a, b := TreeCollision(hash, role, t.right, u.right);
      }
    }
  }

  lemma EqualTreesEqualValues(xs: seq<string>, ys: seq<string>)
    requires |xs| > 0 && |ys| > 0 && AllIds(xs) && AllIds(ys)
    requires RootOf(LeafLevel(xs)) == RootOf(LeafLevel(ys))
    ensures xs == ys
  {
    hide RootOf, FromHex;
    RootKeepsLeaves(LeafLevel(xs));
    RootKeepsLeaves(LeafLevel(ys));
    LeafAt(xs, ys, |xs| - 1);
    LeafAt(ys, xs, |ys| - 1);
    forall i | 0 <= i < |xs|
      ensures xs[i] == ys[i]
    {
      LeafAt(xs, ys, i);
      FromHexInjective(xs[i], ys[i]);
    }
  }

  lemma LeafAt(xs: seq<string>, ys: seq<string>, i: nat)
    requires AllIds(xs) && AllIds(ys) && i < |xs|
    requires LevelLeaves(LeafLevel(xs)) == LevelLeaves(LeafLevel(ys))
    ensures i < |ys| && FromHex(xs[i]) == FromHex(ys[i])
  {
    hide FromHex;
    assert LeafLevel(xs)[i] == Leaf(i, FromHex(xs[i]));
    assert (i, FromHex(xs[i])) in Leaves(LeafLevel(xs)[i]);
    assert (i, FromHex(xs[i])) in LevelLeaves(LeafLevel(xs));
    var j :| 0 <= j < |ys| && (i, FromHex(xs[i])) in Leaves(LeafLevel(ys)[j]);
    assert LeafLevel(ys)[j] == Leaf(j, FromHex(ys[j]));
  }

  lemma SmallRoot(values: seq<string>)
    requires 0 < |values| <= Capacity(8) && AllIds(values)
    ensures SmallIndices(RootOf(LeafLevel(values)))
  {
    hide RootOf, FromHex, Capacity;
    RootKeepsLeaves(LeafLevel(values));
    forall leaf | leaf in LevelLeaves(LeafLevel(values))
      ensures leaf.0 < Capacity(8)
    {
      var i :| 0 <= i < |values| && leaf in Leaves(LeafLevel(values)[i]);
      assert LeafLevel(values)[i] == Leaf(i, FromHex(values[i]));
    }
  }

  /** The bytes an empty commitment hashes after the node domain. */
  function EmptyTail(role: Bytes): (b: Bytes)
    ensures |b| == |role| + 6
  {
    role + [0] + Ascii("EMPTY")
  }

  /** Exactly when the empty commitment and a tree hash the same input: the tree is a node whose
      two child digests spell out the role, a zero byte and EMPTY. */
  lemma EmptyMeetsTreeIff(hash: Hash, role: Bytes, t: Tree)
    ensures EmptyInput(role) == Preimage(hash, role, t) <==>
            (t.Node? && Digest(hash, role, t.left) + Digest(hash, role, t.right) == EmptyTail(role))
  {
    hide Digest;
    match t {
      case Leaf(index, value) =>
        EmptyIsNotLeaf(role, index, value);
      case Node(left, right) =>
        var l, r := Digest(hash, role, left), Digest(hash, role, right);
        assert EmptyInput(role) == NODE_DOMAIN + EmptyTail(role);
        assert NodeInput(l, r) == NODE_DOMAIN + (l + r);
        assert (NODE_DOMAIN + EmptyTail(role))[|NODE_DOMAIN|..] == EmptyTail(role);
        assert (NODE_DOMAIN + (l + r))[|NODE_DOMAIN|..] == l + r;
    }
  }

  lemma EmptyIsNoTree(hash: Hash, role: Bytes, t: Tree)
    requires FixedLength(hash) && |role| + 6 != 64
    ensures EmptyInput(role) != Preimage(hash, role, t)
  {
    hide Digest, EmptyInput, EmptyTail, Preimage;
    EmptyMeetsTreeIff(hash, role, t);
    if t.Node? {
      DigestLength(hash, role, t.left);
      DigestLength(hash, role, t.right);
    }
  }

  /** Binding from the root alone: different identity sequences of any lengths under one role and
      one root give an explicit hash collision.  The role length matters only when one of the
      sequences is empty. */
  lemma RootIsBinding(hash: Hash, role: Bytes, xs: seq<string>, ys: seq<string>) returns (a: Bytes, b: Bytes)
    requires FixedLength(hash)
    requires |xs| == 0 || |ys| == 0 ==> |role| + 6 != 64
    requires |xs| <= Capacity(8) && |ys| <= Capacity(8) && AllIds(xs) && AllIds(ys)
    requires xs != ys && Root(hash, role, xs) == Root(hash, role, ys)
    ensures Collision(hash, a, b) && a in Hashed(hash, role, xs) && b in Hashed(hash, role, ys)
  {
    hide RootOf, LeafLevel, Digest, Preimage, EmptyInput, Capacity, IsId, FixedLength, TreeInputs;
    if |xs| == 0 || |ys| == 0 {
      var zs := if |xs| == 0 then ys else xs;
      var t := RootOf(LeafLevel(zs));
      EmptyIsNoTree(hash, role, t);
      DigestIsHashOfPreimage(hash, role, t);
      RootInput(hash, role, t);
      a, b := EmptyInput(role), Preimage(hash, role, t);
      if |ys| == 0 {
        a, b := b, a;
      }
    } else {
      var t, u := RootOf(LeafLevel(xs)), RootOf(LeafLevel(ys));
      SmallRoot(xs);
      SmallRoot(ys);
      if t == u {
        EqualTreesEqualValues(xs, ys);
      }
      a, b := TreeCollision(hash, role, t, u);
    }
  }

  /** The whole commitment also records the count, so it binds under every role. */
  lemma CommitmentIsBinding(hash: Hash, role: Bytes, xs: seq<string>, ys: seq<string>) returns (a: Bytes, b: Bytes)
    requires FixedLength(hash)
    requires |xs| <= Capacity(8) && |ys| <= Capacity(8) && AllIds(xs) && AllIds(ys)
    requires xs != ys && Commitment(|xs|, Root(hash, role, xs)) == Commitment(|ys|, Root(hash, role, ys))
    ensures Collision(hash, a, b) && a in Hashed(hash, role, xs) && b in Hashed(hash, role, ys)
  {
    hide Root, Hashed, Capacity, IsId, FixedLength;
    a, b := RootIsBinding(hash, role, xs, ys);
  }

  lemma RootInput(hash: Hash, role: Bytes, t: Tree)
    ensures Preimage(hash, role, t) in TreeInputs(hash, role, t)
  {
  }

  /** The hash that sends the two leaves of a pair to the two halves of the empty tail, and every
      other input to a digest that is neither half. */
  ghost function SpellingHash(first: Bytes, second: Bytes, tail: Bytes): Hash
    requires |tail| == 64
  {
    var other: byte := if tail[0] != 0 && tail[32] != 0 then 0 else if tail[0] != 1 && tail[32] != 1 then 1 else 2;
    b => if b == first then tail[..32] else if b == second then tail[32..] else seq(32, _ => other)
  }

  lemma SpellingHashLaws(first: Bytes, second: Bytes, tail: Bytes, b: Bytes)
    requires |tail| == 64
    ensures FixedLength(SpellingHash(first, second, tail))
    ensures b != first && b != second ==>
              SpellingHash(first, second, tail)(b) != tail[..32] && SpellingHash(first, second, tail)(b) != tail[32..]
  {
    if b != first && b != second {
      var digest := SpellingHash(first, second, tail)(b);
      assert digest[0] != tail[..32][0] && digest[0] != tail[32..][0];
    }
  }

  /** The role length condition is needed: for every 58-byte role there is a hash under which the
      empty and a two-element sequence commit to one root although no input of the one collides
      with an input of the other; they hash one and the same input. */
  lemma FiftyEightByteRoleIsAmbiguous(role: Bytes, ys: seq<string>) returns (hash: Hash)
    requires |role| == 58 && |ys| == 2 && AllIds(ys)
    ensures FixedLength(hash)
    ensures Root(hash, role, []) == Root(hash, role, ys)
    ensures forall a, b | a in Hashed(hash, role, []) && b in Hashed(hash, role, ys) :: !Collision(hash, a, b)
  {
    hide LeafInput, NodeInput, EmptyInput, EmptyTail, FromHex, SpellingHash, FixedLength;
    var tail := EmptyTail(role);
    var first, second := LeafInput(role, 0, FromHex(ys[0])), LeafInput(role, 1, FromHex(ys[1]));
    hash := SpellingHash(first, second, tail);
    IndicesDiffer(role, FromHex(ys[0]), FromHex(ys[1]));
    EmptyIsNotLeaf(role, 0, FromHex(ys[0]));
    EmptyIsNotLeaf(role, 1, FromHex(ys[1]));
    SpellingHashLaws(first, second, tail, EmptyInput(role));
    SpellingHashOnLeaves(first, second, tail);
    var trees := LeafLevel(ys);
    PairOfLeaves(ys);
    var t := Node(trees[0], trees[1]);
    assert tail[..32] + tail[32..] == tail;
    EmptyMeetsTreeIff(hash, role, t);
    DigestIsHashOfPreimage(hash, role, t);
    assert TreeInputs(hash, role, t) == {EmptyInput(role), first, second};
  }

  lemma SpellingHashOnLeaves(first: Bytes, second: Bytes, tail: Bytes)
    requires |tail| == 64 && first != second
    ensures SpellingHash(first, second, tail)(first) == tail[..32]
    ensures SpellingHash(first, second, tail)(second) == tail[32..]
  {
  }

  lemma PairOfLeaves(ys: seq<string>)
    requires |ys| == 2 && AllIds(ys)
    ensures var trees := LeafLevel(ys);
            && trees == [Leaf(0, FromHex(ys[0])), Leaf(1, FromHex(ys[1]))]
            && RootOf(trees) == Node(trees[0], trees[1])
  {
    hide FromHex;
    var trees := LeafLevel(ys);
    assert trees == [Leaf(0, FromHex(ys[0])), Leaf(1, FromHex(ys[1]))];
    assert Paired(trees) == [Node(trees[0], trees[1])];
    assert RootOf(Paired(trees)) == Node(trees[0], trees[1]);
  }

  lemma IndicesDiffer(role: Bytes, v: Bytes, w: Bytes)
    ensures LeafInput(role, 0, v) != LeafInput(role, 1, w)
  {
    if LeafInput(role, 0, v) == LeafInput(role, 1, w) {
      assert 1 < Capacity(8) by { assert Capacity(1) == 256; }
      LeafInputInjective(role, 0, v, 1, w);
    }
  }
}
