/** What the SRP hashes depend on (srp.rs).

    Both ends share these functions, so that the two agree says nothing about what goes into them.
    Here each is told apart by some hash exactly when its inputs differ, and the hashed string is
    read back field by field. */
module SrpHashes {
  import opened Bytes
  import opened Modular
  import opened Srp
  import Bits

  function Solid(v: byte): Digest {
    seq(32, _ => v)
  }

  /** The hash that singles out two strings. */
  function Marking(p: seq<byte>, q: seq<byte>, v: byte, w: byte): HashFunction {
    s => if s == p || s == q then Solid(v) else Solid(w)
  }

  lemma {:induction false} SolidIsInjective(v: byte, w: byte)
    ensures Solid(v) == Solid(w) <==> v == w
    ensures FromBytes(Solid(v)) == FromBytes(Solid(w)) <==> v == w
  {
    assert Solid(v)[0] == v && Solid(w)[0] == w;
    SameNumber(Solid(v), Solid(w));
  }

  /** Strings of one length are told apart by their numbers. */
  lemma {:induction false} SameNumber(a: seq<byte>, b: seq<byte>)
    requires |a| == |b|
    ensures FromBytes(a) == FromBytes(b) <==> a == b
    decreases |a|
  {
    if a != [] {
      var n := |a| - 1;
      SameNumber(a[..n], b[..n]);
      assert a == a[..n] + [a[n]] && b == b[..n] + [b[n]];
    }
  }

  /** Minimal forms are told apart by their numbers. */
  lemma MinimalIsInjective(x: nat, y: nat)
    ensures MinimalBytes(x) == MinimalBytes(y) <==> x == y
  {
    FromMinimalBytes(x);
    FromMinimalBytes(y);
  }

  /** Two salts are one exactly when they are one number: leading zeros do not count. */
  lemma SaltsAlike(s: seq<byte>, t: seq<byte>)
    ensures FromBytes(CanonSalt(s)) == FromBytes(s) && |CanonSalt(s)| <= |s|
    ensures CanonSalt(s) == CanonSalt(t) <==> FromBytes(s) == FromBytes(t)
    ensures |s| == |t| ==> (CanonSalt(s) == CanonSalt(t) <==> s == t)
  {
    FromMinimalBytes(FromBytes(s));
    MinimalIsShortest(s);
    MinimalIsInjective(FromBytes(s), FromBytes(t));
    if |s| == |t| {
      SameNumber(s, t);
    }
  }

  // ---- The password ----

  /** Byte `i` of a string, or zero. */
  function At(s: seq<byte>, i: int): byte {
    if 0 <= i < |s| then s[i] else 0
  }

  function Credentials(user: seq<byte>, password: seq<byte>): seq<byte> {
    user + [COLON] + password
  }

  ghost predicate SameX(salt: seq<byte>, user: seq<byte>, password: seq<byte>,
                        salt': seq<byte>, user': seq<byte>, password': seq<byte>)
  {
    forall h: HashFunction :: CalcX(h, salt, user, password) == CalcX(h, salt', user', password')
  }

  /** Two bytes other than the five given. */
  lemma TwoOthers(a: byte, b: byte, c: byte, d: byte, e: byte) returns (v: byte, w: byte)
    ensures v != w && v !in {a, b, c, d, e} && w !in {a, b, c, d, e}
  {
    v :| v in {0, 1, 2, 3, 4, 5} && v !in {a, b, c, d, e};
    w :| w in {6, 7, 8, 9, 10, 11} && w !in {a, b, c, d, e};
  }

  /** The strings hashed for two credentials are told apart by a hash that answers `v` for the
      first credentials, unless they are also the second, and for what is then hashed. */
  lemma XMarked(c: seq<byte>, p: seq<byte>, c': seq<byte>, q: seq<byte>, v: byte, w: byte)
    requires c != c' || p != q
    requires v != w && {v, w} !! {At(p, |p| - 1), At(q, |q| - 1)}
    ensures var inner := if p != q then v else w;
            var h := Marking(c + Solid(inner), if p != q then p else c + Solid(inner), v, w);
            h(c + h(p)) == Solid(v) && h(c' + h(q)) == Solid(w)
  {
    var inner := if p != q then v else w;
    var whole, whole' := c + Solid(inner), c' + Solid(w);
    assert whole[|whole| - 1] == inner && whole'[|whole'| - 1] == w;
    assert whole[..|whole| - 32] == c && whole'[..|whole'| - 32] == c';
    assert whole != p && whole != q && whole' != p && whole' != q && whole != whole';
  }

  lemma XTellsApart(salt: seq<byte>, user: seq<byte>, password: seq<byte>,
                    salt': seq<byte>, user': seq<byte>, password': seq<byte>)
    requires CanonSalt(salt) != CanonSalt(salt') || Credentials(user, password) != Credentials(user', password')
    ensures !SameX(salt, user, password, salt', user', password')
  {
    hide CanonSalt, FromBytes, Marking;
    var p, q := Credentials(user, password), Credentials(user', password');
    var c, c' := CanonSalt(salt), CanonSalt(salt');
    var v, w := TwoOthers(At(p, |p| - 1), At(q, |q| - 1), 0, 0, 0);
    XMarked(c, p, c', q, v, w);
    var inner := if p != q then v else w;
    var h := Marking(c + Solid(inner), if p != q then p else c + Solid(inner), v, w);
    SolidIsInjective(v, w);
    assert CalcX(h, salt, user, password) != CalcX(h, salt', user', password');
  }

  /** `x` depends on the salt's number and on the string of user name, colon and password, and on
      nothing less: another number or another string is told apart by some hash. */
  lemma XDependsOn(salt: seq<byte>, user: seq<byte>, password: seq<byte>,
                   salt': seq<byte>, user': seq<byte>, password': seq<byte>)
    ensures SameX(salt, user, password, salt', user', password')
            <==> && FromBytes(salt) == FromBytes(salt')
                 && user + [COLON] + password == user' + [COLON] + password'
  {
    SaltsAlike(salt, salt');
    if !(FromBytes(salt) == FromBytes(salt') && Credentials(user, password) == Credentials(user', password')) {
      XTellsApart(salt, user, password, salt', user', password');
    }
  }

  /** So the password counts, and the user name, and the salt. */
  lemma CredentialsCount(salt: seq<byte>, user: seq<byte>, password: seq<byte>,
                         salt': seq<byte>, user': seq<byte>, password': seq<byte>)
    ensures password != password' ==> !SameX(salt, user, password, salt, user, password')
    ensures user != user' ==> !SameX(salt, user, password, salt, user', password)
    ensures FromBytes(salt) != FromBytes(salt') ==> !SameX(salt, user, password, salt', user, password)
  {
    XDependsOn(salt, user, password, salt, user, password');
    XDependsOn(salt, user, password, salt, user', password);
    XDependsOn(salt, user, password, salt', user, password);
    var p, q, r := Credentials(user, password), Credentials(user, password'), Credentials(user', password);
    assert p[|user| + 1..] == password && q[|user| + 1..] == password';
    assert p[..|p| - |password| - 1] == user && r[..|r| - |password| - 1] == user';
  }

  /** No leading zero byte. */
  predicate Shortest(b: seq<byte>) {
    b != [] ==> b[0] != 0
  }

  lemma {:induction false} MinimalIsShortestForm(b: seq<byte>)
    ensures MinimalBytes(FromBytes(b)) == b <==> Shortest(b)
    decreases |b|
  {
    if b != [] {
      var n := |b| - 1;
      MinimalIsShortestForm(b[..n]);
      assert FromBytes(b) / 256 == FromBytes(b[..n]);
      assert b == b[..n] + [b[n]];
      if n == 0 {
        assert b[..n] == [];
      } else if FromBytes(b) == 0 {
        assert MinimalBytes(FromBytes(b[..n])) == [];
      }
    }
  }

  /** The hash that answers zeros to every string but one. */
  function Only(t: seq<byte>): HashFunction {
    Marking(t, t, 1, 0)
  }

  /** The string hashed last is the salt's number without leading zeros, then the digest of the
      credentials: of all strings but the credentials, `x` asks for this one. */
  lemma XHashes(t: seq<byte>, salt: seq<byte>, user: seq<byte>, password: seq<byte>)
    requires t != Credentials(user, password)
    ensures CalcX(Only(t), salt, user, password) != 0
            <==> && |t| >= 32 && t[|t| - 32..] == Solid(0)
                 && Shortest(t[..|t| - 32]) && FromBytes(t[..|t| - 32]) == FromBytes(salt)
  {
    var whole := CanonSalt(salt) + Solid(0);
    assert Only(t)(Credentials(user, password)) == Solid(0);
    SolidIsInjective(1, 0);
    assert CalcX(Only(t), salt, user, password) == FromBytes(Only(t)(whole));
    FromZeros();
    assert whole[..|whole| - 32] == CanonSalt(salt) && whole[|whole| - 32..] == Solid(0);
    SaltsAlike(salt, salt);
    MinimalIsShortestForm(CanonSalt(salt));
    if |t| >= 32 {
      assert t == t[..|t| - 32] + t[|t| - 32..];
      MinimalIsShortestForm(t[..|t| - 32]);
    }
  }

  lemma FromZeros()
    ensures FromBytes(Solid(0)) == 0
  {
    FromPadded(32, []);
    assert Zeros(32) + [] == Solid(0);
  }

  // ---- The two proofs ----

  /** What follows the digests in the client's proof. */
  function ProofTail(salt: seq<byte>, a: nat, b: nat, key: Digest): seq<byte> {
    CanonSalt(salt) + MinimalBytes(a) + MinimalBytes(b) + key
  }

  ghost predicate SameM1(gr: Group, user: seq<byte>, salt: seq<byte>, a: nat, b: nat, key: Digest,
                         gr': Group, user': seq<byte>, salt': seq<byte>, a': nat, b': nat, key': Digest)
  {
    forall h: HashFunction :: gr.CalcM1(h, user, salt, a, b, key) == gr'.CalcM1(h, user', salt', a', b', key')
  }

  lemma M1IsOf(gr: Group, h: HashFunction, user: seq<byte>, salt: seq<byte>, a: nat, b: nat, key: Digest)
    ensures gr.CalcM1(h, user, salt, a, b, key)
         == h(Bits.XorBytes(h(MinimalBytes(gr.n)), h(MinimalBytes(gr.g))) + h(user) + ProofTail(salt, a, b, key))
  {
    var x := Bits.XorBytes(h(MinimalBytes(gr.n)), h(MinimalBytes(gr.g)));
    assert x + h(user) + CanonSalt(salt) + MinimalBytes(a) + MinimalBytes(b) + key
        == x + h(user) + ProofTail(salt, a, b, key);
  }

  /** The same for the strings of two proofs of one group, told apart at the user's digest or behind it. */
  lemma M1Marked(n: seq<byte>, g: seq<byte>, user: seq<byte>, tail: seq<byte>, user': seq<byte>, tail': seq<byte>,
                 v: byte, w: byte) returns (h: HashFunction)
    requires user != user' || tail != tail'
    requires v != w && {v, w} !! {At(n, 32), At(g, 32), At(user, 32), At(user', 32)}
    ensures h(Bits.XorBytes(h(n), h(g)) + h(user) + tail) == Solid(v)
    ensures h(Bits.XorBytes(h(n), h(g)) + h(user') + tail') == Solid(w)
  {
    var inner := if user != user' then v else w;
    var mark := (s: seq<byte>) => if user != user' && s == user then Solid(v) else Solid(w);
    var x := Bits.XorBytes(mark(n), mark(g));
    var whole, whole' := x + Solid(inner) + tail, x + Solid(w) + tail';
    assert whole[32] == inner && whole'[32] == w;
    assert whole[64..] == tail && whole'[64..] == tail';
    h := Marking(whole, if user != user' then user else whole, v, w);
    assert h(n) == mark(n) && h(g) == mark(g) && h(user) == Solid(inner) && h(user') == Solid(w);
  }

  /** The client's proof depends on the user, and on what follows its digest. */
  lemma M1DependsOn(gr: Group, user: seq<byte>, salt: seq<byte>, a: nat, b: nat, key: Digest,
                    user': seq<byte>, salt': seq<byte>, a': nat, b': nat, key': Digest)
    ensures SameM1(gr, user, salt, a, b, key, gr, user', salt', a', b', key')
            <==> user == user' && ProofTail(salt, a, b, key) == ProofTail(salt', a', b', key')
  {
    hide MinimalBytes, ProofTail, Group.CalcM1, Bits.XorBytes, Marking;
    var tail, tail' := ProofTail(salt, a, b, key), ProofTail(salt', a', b', key');
    forall h: HashFunction
      ensures gr.CalcM1(h, user, salt, a, b, key)
           == h(Bits.XorBytes(h(MinimalBytes(gr.n)), h(MinimalBytes(gr.g))) + h(user) + tail)
      ensures gr.CalcM1(h, user', salt', a', b', key')
           == h(Bits.XorBytes(h(MinimalBytes(gr.n)), h(MinimalBytes(gr.g))) + h(user') + tail')
    {
      M1IsOf(gr, h, user, salt, a, b, key);
      M1IsOf(gr, h, user', salt', a', b', key');
    }
    if user != user' || tail != tail' {
      var n, g := MinimalBytes(gr.n), MinimalBytes(gr.g);
      var v, w := TwoOthers(At(n, 32), At(g, 32), At(user, 32), At(user', 32), 0);
      var h := M1Marked(n, g, user, tail, user', tail', v, w);
      SolidIsInjective(v, w);
      assert gr.CalcM1(h, user, salt, a, b, key) != gr.CalcM1(h, user', salt', a', b', key');
    }
  }

  /** So each argument counts. */
  lemma ProofArgumentsCount(gr: Group, user: seq<byte>, salt: seq<byte>, a: nat, b: nat, key: Digest,
                            user': seq<byte>, salt': seq<byte>, a': nat, b': nat, key': Digest)
    ensures user != user' ==> !SameM1(gr, user, salt, a, b, key, gr, user', salt, a, b, key)
    ensures FromBytes(salt) != FromBytes(salt') ==> !SameM1(gr, user, salt, a, b, key, gr, user, salt', a, b, key)
    ensures a != a' ==> !SameM1(gr, user, salt, a, b, key, gr, user, salt, a', b, key)
    ensures b != b' ==> !SameM1(gr, user, salt, a, b, key, gr, user, salt, a, b', key)
    ensures key != key' ==> !SameM1(gr, user, salt, a, b, key, gr, user, salt, a, b, key')
  {
    hide SameM1, CanonSalt, MinimalBytes;
    M1DependsOn(gr, user, salt, a, b, key, user', salt, a, b, key);
    M1DependsOn(gr, user, salt, a, b, key, user, salt', a, b, key);
    M1DependsOn(gr, user, salt, a, b, key, user, salt, a', b, key);
    M1DependsOn(gr, user, salt, a, b, key, user, salt, a, b', key);
    M1DependsOn(gr, user, salt, a, b, key, user, salt, a, b, key');
    SaltsAlike(salt, salt');
    MinimalIsInjective(a, a');
    MinimalIsInjective(b, b');
    var c, m, l := CanonSalt(salt), MinimalBytes(a), MinimalBytes(b);
    assert ProofTail(salt, a, b, key) == [] + c + (m + l + key) == c + m + (l + key);
    assert ProofTail(salt', a, b, key) == [] + CanonSalt(salt') + (m + l + key);
    assert ProofTail(salt, a', b, key) == c + MinimalBytes(a') + (l + key);
    SameMiddle([], c, CanonSalt(salt'), m + l + key);
    SameMiddle(c, m, MinimalBytes(a'), l + key);
    SameMiddle(c + m, l, MinimalBytes(b'), key);
    SameMiddle(c + m + l, key, key', []);
  }

  lemma SameMiddle(front: seq<byte>, x: seq<byte>, y: seq<byte>, back: seq<byte>)
    ensures front + x + back == front + y + back <==> x == y
  {
    var p, q := front + x + back, front + y + back;
    if p == q {
      assert |x| == |y|;
      assert x == p[|front|..|front| + |x|] && y == q[|front|..|front| + |x|];
    }
  }

  lemma XorOfSame(v: byte, w: byte)
    ensures Bits.XorByte(v, w) == 0 <==> v == w
  {
    Bits.XorTwice(v, w);
    Bits.XorTwice(w, w);
    Bits.XorTwice(0, w);
    Bits.XorOfSelf(w);
  }

  /** And the group counts: another modulus or another generator below its modulus is told apart. */
  lemma ProofGroupCounts(gr: Group, gr': Group, user: seq<byte>, salt: seq<byte>, a: nat, b: nat, key: Digest)
    requires gr.g < gr.n && gr'.g < gr'.n
    ensures SameM1(gr, user, salt, a, b, key, gr', user, salt, a, b, key) <==> gr == gr'
  {
    hide MinimalBytes, ProofTail, Group.CalcM1, Bits.XorBytes, Marking;
    if gr != gr' {
      var n, g, n', g' := MinimalBytes(gr.n), MinimalBytes(gr.g), MinimalBytes(gr'.n), MinimalBytes(gr'.g);
      MinimalIsInjective(gr.n, gr'.n);
      MinimalIsInjective(gr.g, gr'.g);
      MinimalIsInjective(gr.n, gr'.g);
      MinimalIsInjective(gr.g, gr'.n);
      MinimalIsInjective(gr.n, gr.g);
      var v, w := TwoOthers(At(n, 32), At(g, 32), At(n', 32), At(g', 32), At(user, 32));
      var h := GroupMarked(n, g, n', g', user, ProofTail(salt, a, b, key), v, w);
      M1IsOf(gr, h, user, salt, a, b, key);
      M1IsOf(gr', h, user, salt, a, b, key);
      SolidIsInjective(v, w);
    }
  }

  lemma GroupMarked(n: seq<byte>, g: seq<byte>, n': seq<byte>, g': seq<byte>, user: seq<byte>, tail: seq<byte>,
                    v: byte, w: byte) returns (h: HashFunction)
    requires n != g && !(n in {n', g'} && g in {n', g'})
    requires v != w && {v, w} !! {At(n, 32), At(g, 32), At(n', 32), At(g', 32), At(user, 32)}
    ensures h(Bits.XorBytes(h(n), h(g)) + h(user) + tail) == Solid(v)
    ensures h(Bits.XorBytes(h(n'), h(g')) + h(user) + tail) == Solid(w)
  {
    var z := if n !in {n', g'} then n else g;
    var mark := (s: seq<byte>) => if s == z then Solid(v) else Solid(w);
    var whole := Bits.XorBytes(mark(n), mark(g)) + mark(user) + tail;
    var whole' := Bits.XorBytes(mark(n'), mark(g')) + mark(user) + tail;
    XorOfSame(v, w);
    XorOfSame(w, v);
    XorOfSame(w, w);
    assert whole[0] != 0 && whole'[0] == 0;
    assert whole[32] == mark(user)[0] == whole'[32];
    h := Marking(whole, z, v, w);
    assert h(n) == mark(n) && h(g) == mark(g) && h(n') == mark(n') && h(g') == mark(g') && h(user) == mark(user);
  }

  /** The string of the client's proof: two digests, then salt, public values and key at their shortest. */
  lemma M1Hashes(t: seq<byte>, gr: Group, user: seq<byte>, salt: seq<byte>, a: nat, b: nat, key: Digest)
    requires t !in {MinimalBytes(gr.n), MinimalBytes(gr.g), user}
    ensures gr.CalcM1(Only(t), user, salt, a, b, key) == Solid(1)
            <==> t == Solid(0) + Solid(0) + CanonSalt(salt) + MinimalBytes(a) + MinimalBytes(b) + key
  {
    var h := Only(t);
    XorOfSame(0, 0);
    assert Bits.XorBytes(h(MinimalBytes(gr.n)), h(MinimalBytes(gr.g))) == Solid(0);
    SolidIsInjective(1, 0);
  }

  /** The server's proof depends on all it is made from, in this order. */
  lemma M2DependsOn(t: seq<byte>, a: nat, m1: Digest, key: Digest, a': nat, m1': Digest, key': Digest)
    ensures (forall h: HashFunction :: CalcM2(h, a, m1, key) == CalcM2(h, a', m1', key'))
            <==> a == a' && m1 == m1' && key == key'
    ensures CalcM2(Only(t), a, m1, key) == Solid(1)
            <==> && |t| >= 64 && t[|t| - 32..] == key && t[|t| - 64..|t| - 32] == m1
                 && Shortest(t[..|t| - 64]) && FromBytes(t[..|t| - 64]) == a
  {
    hide MinimalBytes, FromBytes;
    MinimalIsInjective(a, a');
    FromMinimalBytes(a);
    MinimalIsShortestForm(MinimalBytes(a));
    SolidIsInjective(1, 0);
    var s, s' := MinimalBytes(a) + m1 + key, MinimalBytes(a') + m1' + key';
    EndsOf(MinimalBytes(a), m1, key);
    EndsOf(MinimalBytes(a'), m1', key');
    assert CalcM2(Only(s), a, m1, key) == Solid(1) && (CalcM2(Only(s), a', m1', key') == Solid(1) <==> s == s');
    if |t| >= 64 {
      MinimalIsShortestForm(t[..|t| - 64]);
      assert t == t[..|t| - 64] + t[|t| - 64..|t| - 32] + t[|t| - 32..];
    }
  }

  lemma EndsOf(x: seq<byte>, y: Digest, z: Digest)
    ensures var s := x + y + z;
            s[..|s| - 64] == x && s[|s| - 64..|s| - 32] == y && s[|s| - 32..] == z
  {}

  /** The key is the hash of the premaster secret at its shortest. */
  lemma KeyDependsOn(t: seq<byte>, x: nat, y: nat)
    ensures (forall h: HashFunction :: SessionKey(h, x) == SessionKey(h, y)) <==> x == y
    ensures SessionKey(Only(t), x) == Solid(1) <==> Shortest(t) && FromBytes(t) == x
  {
    hide MinimalBytes, FromBytes;
    MinimalIsInjective(x, y);
    FromMinimalBytes(x);
    MinimalIsShortestForm(t);
    MinimalIsShortestForm(MinimalBytes(x));
    SolidIsInjective(1, 0);
    var s := MinimalBytes(x);
    assert SessionKey(Only(s), x) == Solid(1) && (SessionKey(Only(s), y) == Solid(1) <==> x == y);
  }

  // ---- The multiplier and the scrambling parameter ----

  /** Padded, the hashed string is the two numbers at the length of the modulus; so the pair is told
      apart from every other. */
  lemma PairHashes(t: seq<byte>, gr: Group, a: nat, b: nat)
    requires |MinimalBytes(a)| <= gr.Length() && |MinimalBytes(b)| <= gr.Length()
    ensures gr.UValue(Only(t), a, b, false) != 0
            <==> |t| == 2 * gr.Length() && FromBytes(t[..gr.Length()]) == a && FromBytes(t[gr.Length()..]) == b
    ensures gr.UValue(Only(t), a, b, true) != 0 <==> t == MinimalBytes(a) + MinimalBytes(b)
  {
    hide MinimalBytes, FromBytes, Group.Length;
    SolidIsInjective(1, 0);
    FromZeros();
    var l, s := gr.Length(), gr.Pad(a) + gr.Pad(b);
    assert s[..l] == gr.Pad(a) && s[l..] == gr.Pad(b);
    FromPaddedMinimal(l - |MinimalBytes(a)|, a);
    FromPaddedMinimal(l - |MinimalBytes(b)|, b);
    if |t| == 2 * l {
      assert t == t[..l] + t[l..];
      SameNumber(t[..l], gr.Pad(a));
      SameNumber(t[l..], gr.Pad(b));
    }
  }

  lemma UDependsOn(gr: Group, a: nat, b: nat, a': nat, b': nat)
    requires |MinimalBytes(a)| <= gr.Length() && |MinimalBytes(b)| <= gr.Length()
    requires |MinimalBytes(a')| <= gr.Length() && |MinimalBytes(b')| <= gr.Length()
    ensures (forall h: HashFunction :: gr.UValue(h, a, b, false) == gr.UValue(h, a', b', false)) <==> a == a' && b == b'
  {
    hide MinimalBytes, FromBytes, Group.Length, Group.UValue;
    var l, t := gr.Length(), gr.Pad(a) + gr.Pad(b);
    assert t[..l] == gr.Pad(a) && t[l..] == gr.Pad(b);
    FromPaddedMinimal(l - |MinimalBytes(a)|, a);
    FromPaddedMinimal(l - |MinimalBytes(b)|, b);
    PairHashes(t, gr, a, b);
    PairHashes(t, gr, a', b');
    assert gr.UValue(Only(t), a, b, false) != 0;
  }

  /** The multiplier hashes modulus and generator. */
  lemma KHashes(t: seq<byte>, gr: Group)
    requires gr.Paddable()
    ensures gr.KValue(Only(t), false) != 0
            <==> |t| == 2 * gr.Length() && FromBytes(t[..gr.Length()]) == gr.n && FromBytes(t[gr.Length()..]) == gr.g
    ensures gr.KValue(Only(t), true) != 0 <==> t == MinimalBytes(gr.n) + MinimalBytes(gr.g)
  {
    PairHashes(t, gr, gr.n, gr.g);
  }
}
