/** Shifting a row of limbs in place. */
module BnShift {
  import opened Arith
  import opened SeqNum
  import opened Seqs
  import opened Bn

  // ---- the machine's bit operations on one limb --------------------------------------

  function Pow2(k: nat): (p: nat)
    ensures p >= 1
  {
    if k == 0 then 1 else 2 * Pow2(k - 1)
  }

  function Or(a: nat, b: nat): (r: nat)
    decreases a + b
  {
    if a == 0 && b == 0 then 0
    else 2 * Or(a / 2, b / 2) + if a % 2 == 1 || b % 2 == 1 then 1 else 0
  }

  function And(a: nat, b: nat): (r: nat) {
    if a == 0 || b == 0 then 0
    else 2 * And(a / 2, b / 2) + if a % 2 == 1 && b % 2 == 1 then 1 else 0
  }

  function Shl(a: U32, m: nat): U32 {
    a * Pow2(m) % MODULUS
  }

  function Shr(a: U32, m: nat): (r: nat)
    ensures r <= a
  {
    Quotient(a, Pow2(m));
    a / Pow2(m)
  }

  lemma Quotient(a: nat, d: nat)
    requires d >= 1
    ensures 0 <= a / d <= a
  {
    var q := a / d;
    assert a == q * d + a % d;
    if q > a {
      MulLeft(1, d, q);
    }
  }

  lemma {:induction false} Pow2Add(a: nat, b: nat)
    ensures Pow2(a + b) == Pow2(a) * Pow2(b)
  {
    if a > 0 {
      Pow2Add(a - 1, b);
      MulAssoc(2, Pow2(a - 1), Pow2(b));
    }
  }

  lemma Pow2Of32()
    ensures Pow2(32) == MODULUS
  {
    assert Pow2(4) == 16;
    Pow2Add(4, 4);
    Pow2Add(8, 8);
    Pow2Add(16, 16);
  }

  lemma {:induction false} PowIsPow2(n: nat)
    ensures Pow2(32 * n) == Pow(n)
  {
    if n > 0 {
      Pow2Of32();
      PowIsPow2(n - 1);
      Pow2Add(32, 32 * (n - 1));
    }
  }

  lemma {:induction false} OrZero(a: nat)
    ensures Or(a, 0) == a
  {
    if a > 0 {
      OrZero(a / 2);
    }
  }

  /** Bits that do not overlap: the disjunction is the sum. */
  lemma {:induction false} OrDisjoint(k: nat, b: nat, m: nat)
    requires b < Pow2(m)
    ensures Or(k * Pow2(m), b) == k * Pow2(m) + b
    decreases m
  {
    if m == 0 {
      OrZero(k);
    } else {
      var a := k * Pow2(m);
      var half := k * Pow2(m - 1);
      assert a == 2 * half by { assert k * (2 * Pow2(m - 1)) == 2 * (k * Pow2(m - 1)); }
      OrDisjoint(k, b / 2, m - 1);
      assert a / 2 == half && a % 2 == 0;
    }
  }

  lemma HalfMod(a: nat, p: nat)
    requires p >= 1
    ensures a % (2 * p) == 2 * (a / 2 % p) + a % 2
  {
    var q, r := a / 2 / p, a / 2 % p;
    assert a / 2 == q * p + r;
    assert a == q * (2 * p) + (2 * r + a % 2) by { assert q * (2 * p) == 2 * (q * p); }
    DivModUnique(a, 2 * p, q, 2 * r + a % 2);
  }

  /** A mask of `m` ones takes the remainder. */
  lemma {:induction false} AndMask(a: nat, m: nat)
    ensures And(a, Pow2(m) - 1) == a % Pow2(m)
  {
    if m > 0 {
      var p := Pow2(m - 1);
      AndMask(a / 2, m - 1);
      HalfMod(a, p);
      assert (2 * p - 1) / 2 == p - 1 && (2 * p - 1) % 2 == 1;
      if a == 0 {
        assert And(a, 2 * p - 1) == 0;
      }
    }
  }

  /** The two parts a limb is cut into by a shift of `m` places. */
  lemma Cut(m: nat)
    requires 0 < m < 32
    ensures Pow2(m) * Pow2(32 - m) == MODULUS && Pow2(m) < MODULUS && Pow2(32 - m) < MODULUS && Pow2(m) >= 2 && Pow2(32 - m) >= 2
  {
    hide Pow2;
    Pow2Of32();
    Pow2Add(m, 32 - m);
    AtLeastTwo(m);
    AtLeastTwo(32 - m);
    MulLeft(2, Pow2(32 - m), Pow2(m));
    MulLeft(2, Pow2(m), Pow2(32 - m));
  }

  lemma AtLeastTwo(m: nat)
    requires m > 0
    ensures Pow2(m) >= 2
  {
    assert Pow2(m) == 2 * Pow2(m - 1);
  }

  lemma Parts(a: U32, p: nat, c: nat)
    requires p >= 2 && c >= 2 && p * c == MODULUS
    ensures a == a / c * c + a % c && 0 <= a / c < p && 0 <= a % c < c
    ensures a % c * p <= MODULUS - p && a * p == a / c * MODULUS + a % c * p
    ensures a * p % MODULUS == a % c * p
  {
    var h, l := a / c, a % c;
    assert a == h * c + l;
    if h >= p {
      MulLeft(p, h, c);
    }
    MulLeft(l, c - 1, p);
    Distribute(c, -1, p);
    assert (h * c + l) * p == h * c * p + l * p;
    MulAssoc(h, c, p);
    assert c * p == p * c;
    DivModUnique(a * p, MODULUS, h, l * p);
  }

  // ---- shifting left -------------------------------------------------------------------

  /** What limb `a` becomes when limb `b` stands to its right. */
  function LeftLimb(a: U32, b: U32, m: nat): (r: U32)
    requires 0 < m < 32
  {
    Cut(m);
    Parts(a, Pow2(m), Pow2(32 - m));
    Parts(b, Pow2(m), Pow2(32 - m));
    a % Pow2(32 - m) * Pow2(m) + b / Pow2(32 - m)
  }

  lemma LeftLimbBits(a: U32, b: U32, m: nat)
    requires 0 < m < 32
    ensures Or(Shl(a, m), Shr(b, 32 - m)) == LeftLimb(a, b, m)
    ensures Shl(a, m) == LeftLimb(a, 0, m)
  {
    Cut(m);
    Parts(a, Pow2(m), Pow2(32 - m));
    Parts(b, Pow2(m), Pow2(32 - m));
    OrDisjoint(a % Pow2(32 - m), b / Pow2(32 - m), m);
  }

  function At(s: seq<U32>, i: nat): U32 {
    if i < |s| then s[i] else 0
  }

  function LeftLimbs(s: seq<U32>, m: nat): (r: seq<U32>)
    requires 0 < m < 32
    ensures |r| == |s|
  {
    seq(|s|, i requires 0 <= i < |s| => LeftLimb(s[i], At(s, i + 1), m))
  }

  lemma LeftColumn(s: int, h: int, l: int, h': int, a: int, c: int, p: int, v: int, v': int)
    requires s == h * c + l && a * c == MODULUS && v' + h' * p == v * a
    ensures (l * a + h') * p + v' + h * (MODULUS * p) == (s * p + v) * a
  {
    assert (l * a + h') * p == l * a * p + h' * p;
    assert (s * p + v) * a == s * p * a + v * a;
    assert s * p * a == (h * c + l) * (p * a) by { MulAssoc(s, p, a); }
    assert (h * c + l) * (p * a) == h * c * (p * a) + l * (p * a);
    assert l * (p * a) == l * a * p by { MulAssoc(l, a, p); }
    assert h * c * (p * a) == h * (MODULUS * p) by {
      MulAssoc(h, c, p * a);
      MulAssoc(c, a, p);
      assert c * (p * a) == c * (a * p);
      assert c * a == a * c;
    }
  }

  /** Shifted limbs, with the bits that leave on the left, make up the multiplied number. */
  lemma {:induction false} LeftValue(s: seq<U32>, m: nat, i: nat)
    requires 0 < m < 32 && i <= |s|
    ensures Val(LeftLimbs(s, m)[i..]) + At(s, i) / Pow2(32 - m) * Pow(|s| - i) == Val(s[i..]) * Pow2(m)
    decreases |s| - i
  {
    var t := LeftLimbs(s, m);
    hide Val;
    hide Pow;
    hide Pow2;
    Cut(m);
    if i == |s| {
      ValEmpty();
      assert s[i..] == t[i..] == [];
      Parts(0, Pow2(m), Pow2(32 - m));
    } else {
      LeftValue(s, m, i + 1);
      ValFrom(s, i);
      ValFrom(t, i);
      PowStep(|s| - i - 1);
      var c := Pow2(32 - m);
      Parts(s[i], Pow2(m), c);
      LeftColumn(s[i], s[i] / c, s[i] % c, At(s, i + 1) / c, Pow2(m), c, Pow(|s| - i - 1), Val(s[i + 1..]), Val(t[i + 1..]));
    }
  }

  lemma ZerosRight(s: seq<U32>, n: nat)
    ensures Val(s + Repeat<U32>(0, n)) == Val(s) * Pow(n)
  {
    ValConcat(s, Repeat<U32>(0, n));
    ZeroVal(Repeat<U32>(0, n));
  }

  lemma ZerosLeft(s: seq<U32>, n: nat)
    ensures Val(Repeat<U32>(0, n) + s) == Val(s)
  {
    ValConcat(Repeat<U32>(0, n), s);
    ZeroVal(Repeat<U32>(0, n));
  }

  /** Whole limbs to the left, zeros behind them. */
  method MoveLeft(arr: array<U32>, n: nat)
    requires n <= arr.Length
    modifies arr
    ensures arr[..] == old(arr[n..]) + Repeat<U32>(0, n)
  {
    hide Repeat;
    ghost var s := arr[..];
    var size := arr.Length;
    for i := 0 to size - n
      invariant arr[..i] == s[n..n + i] && arr[i..] == s[i..]
    {
      assert arr[i..][n] == s[i..][n];
      arr[i] := arr[i + n];
      assert arr[i + 1..] == s[i..][1..];
    }
    assert arr[..size - n] == s[n..];
    for i := size - n to size
      invariant arr[..size - n] == s[n..] && arr[size - n..i] == Repeat<U32>(0, i - (size - n))
    {
      RepeatSnoc<U32>(0, i - (size - n));
      arr[i] := 0;
      assert arr[size - n..i + 1] == arr[size - n..i] + [0];
    }
    assert arr[..] == arr[..size - n] + arr[size - n..size];
  }

  /** The first `len` limbs by fewer than 32 places. */
  method BitsLeft(arr: array<U32>, len: nat, m: nat)
    requires 0 < len <= arr.Length && 0 < m < 32
    modifies arr
    ensures arr[..len] == LeftLimbs(old(arr[..len]), m) && arr[len..] == old(arr[len..])
  {
    hide LeftLimb;
    hide Or;
    hide Shl;
    hide Shr;
    ghost var s := arr[..len];
    var i := 0;
    while i < len - 1
      invariant 0 <= i <= len - 1 && arr[len..] == old(arr[len..])
      invariant forall k :: 0 <= k < i ==> arr[k] == LeftLimbs(s, m)[k]
      invariant forall k :: i <= k < len ==> arr[k] == s[k]
    {
      LeftLimbBits(s[i], s[i + 1], m);
      var msb := Shr(arr[i + 1], 32 - m);
      arr[i] := Or(Shl(arr[i], m), msb);
      i := i + 1;
    }
    LeftLimbBits(s[i], 0, m);
    arr[i] := Shl(arr[i], m);
  }

  lemma LeftTotal(va: int, top: int, vs: int, vl: int, h: int, a: int, pl: int, pn: int)
    requires va == top * pl + vs && vl + h * pl == vs * a
    ensures vl * pn + (top * a + h) * (pl * pn) == va * (a * pn)
  {
    assert va * a == top * pl * a + vs * a;
    assert top * pl * a == top * a * pl by { MulAssoc(top, pl, a); MulAssoc(top, a, pl); }
    assert (top * a + h) * pl == top * a * pl + h * pl;
    MulAssoc(top * a + h, pl, pn);
    MulAssoc(va, a, pn);
    Distribute(vl, (top * a + h) * pl, pn);
  }

  /** The limbs of `s`, moved `n` limbs and `m` bits to the left. */
  lemma LeftDone(s: seq<U32>, t: seq<U32>, n: nat, m: nat)
    requires |t| == |s| && n <= |s| && m < 32
    requires t == (if m == 0 || n == |s| then s[n..] else LeftLimbs(s[n..], m)) + Repeat<U32>(0, n)
    ensures Val(t) == Val(s) * Pow2(32 * n + m) % Pow(|s|)
  {
    hide Val;
    hide Pow;
    var rest := s[n..];
    var h := LeftRest(rest, m);
    var moved := t[..|s| - n];
    assert t == moved + Repeat<U32>(0, n);
    assert moved == if m == 0 || n == |s| then rest else LeftLimbs(rest, m);
    ZerosRight(moved, n);
    SplitVal(s, n);
    PowIsPow2(n);
    Pow2Add(m, 32 * n);
    PowAdd(|s| - n, n);
    LeftTotal(Val(s), Val(s[..n]), Val(rest), Val(moved), h, Pow2(m), Pow(|s| - n), Pow(n));
    ModFrom(t, Val(s[..n]) * Pow2(m) + h, Val(s) * Pow2(32 * n + m));
  }

  lemma LeftRest(s: seq<U32>, m: nat) returns (h: int)
    requires m < 32
    ensures Val(if m == 0 || s == [] then s else LeftLimbs(s, m)) + h * Pow(|s|) == Val(s) * Pow2(m)
  {
    hide Pow;
    h := 0;
    if m == 0 {
      assert Pow2(m) == 1;
    } else if s == [] {
      ValEmpty();
    } else {
      LeftValue(s, m, 0);
      assert s[0..] == s && LeftLimbs(s, m)[0..] == LeftLimbs(s, m);
      h := s[0] / Pow2(32 - m);
    }
  }

  // ---- shifting right ------------------------------------------------------------------

  /** What limb `b` becomes when limb `a` stands to its left. */
  function RightLimb(a: U32, b: U32, m: nat): (r: U32)
    requires 0 < m < 32
  {
    Cut(m);
    Parts(a, Pow2(32 - m), Pow2(m));
    Parts(b, Pow2(32 - m), Pow2(m));
    a % Pow2(m) * Pow2(32 - m) + b / Pow2(m)
  }

  lemma MaskPositive(m: nat)
    requires 0 < m < 32
    ensures Shl(1, m) == Pow2(m)
  {
    Cut(m);
    DivModUnique(Pow2(m), MODULUS, 0, Pow2(m));
  }

  /** The low `m` bits. */
  function Mask(m: nat): (r: nat)
    requires 0 < m < 32
    ensures r == Pow2(m) - 1
  {
    MaskPositive(m);
    Shl(1, m) - 1
  }

  lemma RightLimbBits(a: U32, b: U32, m: nat)
    requires 0 < m < 32
    ensures And(Mask(m), a) < MODULUS
    ensures Or(Shr(b, m), Shl(And(Mask(m), a), 32 - m)) == RightLimb(a, b, m)
    ensures Shr(b, m) == RightLimb(0, b, m)
  {
    hide Pow2;
    hide Or;
    hide And;
    hide Mask;
    Cut(m);
    DivModUnique(0, Pow2(m), 0, 0);
    AndMask(a, m);
    AndCommutes(a, Pow2(m) - 1);
    Parts(a, Pow2(32 - m), Pow2(m));
    Parts(b, Pow2(32 - m), Pow2(m));
    var l := a % Pow2(m);
    DivModUnique(l * Pow2(32 - m), MODULUS, 0, l * Pow2(32 - m));
    OrDisjoint(l, b / Pow2(m), 32 - m);
    OrCommutes(l * Pow2(32 - m), b / Pow2(m));
  }

  lemma {:induction false} AndCommutes(a: nat, b: nat)
    ensures And(a, b) == And(b, a)
  {
    if a != 0 && b != 0 {
      AndCommutes(a / 2, b / 2);
    }
  }

  lemma {:induction false} OrCommutes(a: nat, b: nat)
    ensures Or(a, b) == Or(b, a)
    decreases a + b
  {
    if a != 0 || b != 0 {
      OrCommutes(a / 2, b / 2);
    }
  }

  /** The limb to the left of position `i`. */
  function Before(s: seq<U32>, i: nat): U32
    requires i <= |s|
  {
    if i == 0 then 0 else s[i - 1]
  }

  function RightLimbs(s: seq<U32>, m: nat): (r: seq<U32>)
    requires 0 < m < 32
    ensures |r| == |s|
  {
    seq(|s|, i requires 0 <= i < |s| => RightLimb(Before(s, i), s[i], m))
  }

  lemma RightAt(s: seq<U32>, m: nat, i: nat)
    requires 0 < m < 32 && i < |s|
    ensures RightLimbs(s, m)[i] == RightLimb(Before(s, i), s[i], m)
  {
  }

  lemma RightColumn(b: int, c: int, a: int, l: int, h: int, low: int, p: int, v: int, v': int)
    requires b == h * a + low && a * c == MODULUS
    ensures a * ((l * c + h) * p + v') == l * (MODULUS * p) + b * p - low * p + a * v'
  {
    Distribute((l * c + h) * p, v', a);
    assert (l * c + h) * p == l * c * p + h * p;
    Distribute(l * c * p, h * p, a);
    assert a * (l * c * p) == l * (MODULUS * p) by {
      MulAssoc(l, c, p);
      MulAssoc(a, l, c * p);
      assert a * l == l * a;
      MulAssoc(l, a, c * p);
      MulAssoc(a, c, p);
    }
    assert a * (h * p) == h * a * p by { MulAssoc(a, h, p); }
    assert (b - low) * p == b * p - low * p;
  }

  lemma {:induction false} RightValue(s: seq<U32>, m: nat, i: nat)
    requires 0 < m < 32 && i <= |s|
    ensures Pow2(m) * Val(RightLimbs(s, m)[i..]) + Before(s, |s|) % Pow2(m) == Val(s[i..]) + Before(s, i) % Pow2(m) * Pow(|s| - i)
    decreases |s| - i
  {
    hide Val;
    hide Pow;
    hide Pow2;
    var t := RightLimbs(s, m);
    Cut(m);
    if i == |s| {
      ValEmpty();
      PowStep(0);
      assert s[i..] == t[i..] == [];
    } else {
      RightValue(s, m, i + 1);
      ValFrom(s, i);
      ValFrom(t, i);
      PowStep(|s| - i - 1);
      var a, c := Pow2(m), Pow2(32 - m);
      Parts(s[i], c, a);
      RightColumn(s[i], c, a, Before(s, i) % a, s[i] / a, s[i] % a, Pow(|s| - i - 1), Val(s[i + 1..]), Val(t[i + 1..]));
    }
  }

  method ClearFront(arr: array<U32>, n: nat)
    requires n <= arr.Length
    modifies arr
    ensures arr[..] == Repeat<U32>(0, n) + old(arr[n..])
  {
    hide Repeat;
    ghost var rest := arr[n..];
    for i := 0 to n
      invariant arr[n..] == rest && arr[..i] == Repeat<U32>(0, i)
    {
      RepeatSnoc<U32>(0, i);
      arr[i] := 0;
      assert arr[..i + 1] == arr[..i] + [0];
    }
    assert arr[..] == arr[..n] + arr[n..];
  }

  /** Whole limbs to the right, zeros before them. */
  method MoveRight(arr: array<U32>, n: nat)
    requires n <= arr.Length
    modifies arr
    ensures arr[..] == Repeat<U32>(0, n) + old(arr[..arr.Length - n])
  {
    hide Repeat;
    ghost var s := arr[..];
    var size := arr.Length;
    for i := size downto n
      invariant arr[i..] == s[i - n..size - n] && arr[..i] == s[..i]
    {
      assert arr[..i + 1][i - n] == s[i - n];
      ghost var moved := arr[i + 1..];
      arr[i] := arr[i - n];
      assert arr[i..] == [s[i - n]] + moved && arr[..i] == s[..i + 1][..i];
    }
    ClearFront(arr, n);
  }

  /** The limbs from `n` on by fewer than 32 places. */
  method BitsRight(arr: array<U32>, n: nat, m: nat)
    requires n < arr.Length && 0 < m < 32
    modifies arr
    ensures arr[n..] == RightLimbs(old(arr[n..]), m) && arr[..n] == old(arr[..n])
  {
    hide RightLimb;
    hide Or;
    hide And;
    hide Shl;
    hide Shr;
    hide Mask;
    hide RightLimbs;
    ghost var s := arr[n..];
    for i := arr.Length downto n + 1
      invariant arr[..n] == old(arr[..n])
      invariant forall k :: i <= k < arr.Length ==> arr[k] == RightLimbs(s, m)[k - n]
      invariant forall k :: n <= k < i ==> arr[k] == s[k - n]
    {
      RightLimbBits(s[i - 1 - n], s[i - n], m);
      RightAt(s, m, i - n);
      arr[i] := Or(Shr(arr[i], m), Shl(And(Mask(m), arr[i - 1]), 32 - m));
    }
    RightLimbBits(0, s[0], m);
    RightAt(s, m, 0);
    arr[n] := Shr(arr[n], m);
  }

  lemma RightTotal(va: int, vs: int, t: int, vr: int, low: int, a: int, pn: int)
    requires va == vs * pn + t && 0 <= t < pn && vs == a * vr + low && 0 <= low < a
    ensures va / (a * pn) == vr
  {
    assert (a * vr + low) * pn == a * vr * pn + low * pn;
    assert a * vr * pn == vr * (a * pn) by { MulAssoc(vr, a, pn); }
    MulLeft(low, a - 1, pn);
    Distribute(a, -1, pn);
    MulLeft(1, a, pn);
    assert low * pn >= 0 by { MulLeft(0, low, pn); }
    DivModUnique(va, a * pn, vr, low * pn + t);
  }

  lemma RightRest(s: seq<U32>, m: nat) returns (low: int)
    requires m < 32
    ensures 0 <= low < Pow2(m)
    ensures Val(s) == Pow2(m) * Val(if m == 0 || s == [] then s else RightLimbs(s, m)) + low
  {
    low := 0;
    if m == 0 {
      assert Pow2(m) == 1;
    } else if s == [] {
      ValEmpty();
    } else {
      hide Val;
      hide Pow2;
      RightValue(s, m, 0);
      assert s[0..] == s && RightLimbs(s, m)[0..] == RightLimbs(s, m);
      low := s[|s| - 1] % Pow2(m);
      Cut(m);
      DivModUnique(0, Pow2(m), 0, 0);
    }
  }

  /** The limbs of `s`, moved `n` limbs and `m` bits to the right. */
  lemma RightDone(s: seq<U32>, t: seq<U32>, n: nat, m: nat)
    requires |t| == |s| && n <= |s| && m < 32
    requires t == Repeat<U32>(0, n) + if m == 0 || n == |s| then s[..|s| - n] else RightLimbs(s[..|s| - n], m)
    ensures Val(t) == Val(s) / Pow2(32 * n + m)
  {
    hide Val;
    hide Pow;
    var kept := s[..|s| - n];
    var low := RightRest(kept, m);
    var moved := t[n..];
    assert t == Repeat<U32>(0, n) + moved;
    assert moved == if m == 0 || n == |s| then kept else RightLimbs(kept, m);
    ZerosLeft(moved, n);
    SplitVal(s, |s| - n);
    ValBound(s[|s| - n..]);
    PowIsPow2(n);
    Pow2Add(m, 32 * n);
    RightTotal(Val(s), Val(kept), Val(s[|s| - n..]), Val(moved), low, Pow2(m), Pow(n));
  }

  // ---- the two entry points --------------------------------------------------------------

  /** What a shift by `bits` makes of a number `width` limbs wide; a negative count shifts the other way. */
  function Shifted(v: nat, bits: int, width: nat): int {
    if bits >= 0 then v * Pow2(bits) % Pow(width) else v / Pow2(-bits)
  }

  lemma ShiftedByNothing(s: seq<U32>)
    ensures Shifted(Val(s), 0, |s|) == Val(s) / Pow2(0) == Val(s)
  {
    ValBound(s);
    DivModUnique(Val(s) * Pow2(0), Pow(|s|), 0, Val(s));
  }

  /** `operator<<=`.  A shift beyond one limb more than the whole width would write outside the array. */
  method ShiftLeft(arr: array<U32>, bits: int)
    requires -32 * (arr.Length + 1) < bits < 32 * (arr.Length + 1)
    modifies arr
    ensures Val(arr[..]) == Shifted(old(Val(arr[..])), bits, arr.Length)
    decreases bits < 0
  {
    hide Val;
    hide Pow;
    hide Pow2;
    hide LeftLimbs;
    if bits < 0 {
      ShiftRight(arr, -bits);
      return;
    }
    ghost var s := arr[..];
    var size := arr.Length;
    var n, m := bits / 32, bits % 32;
    MoveLeft(arr, n);
    assert arr[..size - n] == s[n..] && arr[size - n..] == Repeat<U32>(0, n);
    if m != 0 && n < size {
      BitsLeft(arr, size - n, m);
    }
    assert arr[..] == arr[..size - n] + arr[size - n..];
    LeftDone(s, arr[..], n, m);
  }

  /** `operator>>=`. */
  method ShiftRight(arr: array<U32>, bits: int)
    requires -32 * (arr.Length + 1) < bits < 32 * (arr.Length + 1)
    modifies arr
    ensures Val(arr[..]) == Shifted(old(Val(arr[..])), -bits, arr.Length)
    decreases bits < 0
  {
    hide Val;
    hide Pow;
    hide Pow2;
    hide RightLimbs;
    if bits < 0 {
      ShiftLeft(arr, -bits);
      return;
    }
    ghost var s := arr[..];
    var size := arr.Length;
    var n, m := bits / 32, bits % 32;
    MoveRight(arr, n);
    assert arr[n..] == s[..size - n] && arr[..n] == Repeat<U32>(0, n);
    if m != 0 && n < size {
      BitsRight(arr, n, m);
    }
    assert arr[..] == arr[..n] + arr[n..];
    RightDone(s, arr[..], n, m);
    ShiftedByNothing(s);
  }
}
