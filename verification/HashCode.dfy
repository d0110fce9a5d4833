/** The hash of a name, and the MAC address an interface gets from it. */
module HashCode {
  import opened MacTable
  import opened Prefix

  /** A character of a name; the type is signed. */
  type Char = c: int | -128 <= c < 128

  function Pow97(n: nat): (p: nat)
    ensures p % 2 == 1
  {
    if n == 0 then 1 else 97 * Pow97(n - 1)
  }

  /** The sum of c_i * 97^(n - i), not reduced. */
  function HashSum(s: seq<Char>): int {
    if s == [] then 0 else s[0] * Pow97(|s|) + HashSum(s[1..])
  }

  /** What the program computes: the sum as a 32-bit word. */
  method ComputeHash(s: seq<Char>) returns (value: int)
    ensures value == HashSum(s) % WORD
  {
    value := 0;
    var i := 0;
    while i < |s|
      invariant 0 <= i <= |s| && value == HashSum(s[..i]) % WORD
    {
      HashAppend(s[..i], s[i]);
      assert s[..i + 1] == s[..i] + [s[i]];
      HashRound(HashSum(s[..i]), s[i]);
      value := (value + s[i]) % WORD;
      value := (value * 97) % WORD;
      i := i + 1;
    }
    assert s[..i] == s;
  }

  lemma HashRound(h: int, c: int)
    ensures ((h % WORD + c) % WORD * 97) % WORD == ((h + c) * 97) % WORD
  {
    var q, r := h / WORD, h % WORD;
    var q', r' := (r + c) / WORD, (r + c) % WORD;
    ModShift(r' * 97, (q + q') * 97);
    assert (h + c) * 97 == r' * 97 + WORD * ((q + q') * 97);
  }

  lemma ModShift(a: int, k: int)
    ensures (a + WORD * k) % WORD == a % WORD
  {
    DivUnique(a + WORD * k, WORD, a / WORD + k, a % WORD);
  }

  lemma {:induction false} HashAppend(s: seq<Char>, c: Char)
    ensures HashSum(s + [c]) == (HashSum(s) + c) * 97
  {
    if s == [] {
      assert [c][1..] == [] && Pow97(1) == 97 * Pow97(0);
    } else {
      HashAppend(s[1..], c);
      assert (s + [c])[1..] == s[1..] + [c];
      var p := Pow97(|s|);
      assert Pow97(|s| + 1) == 97 * p;
      MulAssoc(s[0], 97, p);
    }
  }

  // ----- collisions

  /** The two names agree but for the character at `k`. */
  predicate DifferAt(s: seq<Char>, t: seq<Char>, k: nat) {
    k < |s| && |s| == |t| && s[k] != t[k] && s[..k] == t[..k] && s[k + 1..] == t[k + 1..]
  }

  lemma {:induction false} DifferenceOfSums(s: seq<Char>, t: seq<Char>, k: nat)
    requires DifferAt(s, t, k)
    ensures HashSum(s) - HashSum(t) == (s[k] as int - t[k] as int) * Pow97(|s| - k)
  {
    if k == 0 {
      var p := Pow97(|s|);
      var a: int, b: int := s[0], t[0];
      assert a * p - b * p == (a - b) * p;
    } else {
      assert s[..k][1..] == s[1..][..k - 1] && t[..k][1..] == t[1..][..k - 1];
      assert s[..k][0] == t[..k][0];
      DifferenceOfSums(s[1..], t[1..], k - 1);
    }
  }

  /** An odd factor does not help a power of two divide. */
  lemma {:induction false} OddCancels(d: int, odd: nat, n: nat)
    requires odd % 2 == 1 && (d * odd) % Pow2(n) == 0
    ensures d % Pow2(n) == 0
    decreases n
  {
    if n > 0 {
      var k := (d * odd) / Pow2(n);
      assert d * odd == Pow2(n) * k == 2 * (Pow2(n - 1) * k) by {
        MulAssoc(2, Pow2(n - 1), k);
      }
      if d % 2 == 1 {
        OddTimesOdd(d, odd);
        assert false;
      }
      var h := d / 2;
      assert (h * odd) % Pow2(n - 1) == 0 by {
        assert d * odd == 2 * (h * odd) by {
          MulAssoc(2, h, odd);
        }
        DivUnique(h * odd, Pow2(n - 1), k, 0);
      }
      OddCancels(h, odd, n - 1);
      var q := h / Pow2(n - 1);
      assert d == Pow2(n) * q by {
        MulAssoc(2, Pow2(n - 1), q);
      }
      DivUnique(d, Pow2(n), q, 0);
    } else {
      assert Pow2(0) == 1;
    }
  }

  lemma OddTimesOdd(d: int, odd: int)
    requires odd % 2 == 1 && d % 2 == 1
    ensures (d * odd) % 2 == 1
  {
    var a, b := d / 2, odd / 2;
    assert d * odd == (2 * a + 1) * (2 * b + 1) == 2 * (2 * a * b + a + b) + 1;
  }

  /** Two names of the same length that differ in one character never have the same hash. */
  lemma OneCharacterChangesHash(s: seq<Char>, t: seq<Char>, k: nat)
    requires DifferAt(s, t, k)
    ensures HashSum(s) % WORD != HashSum(t) % WORD
  {
    if HashSum(s) % WORD == HashSum(t) % WORD {
      var d, p := s[k] as int - t[k] as int, Pow97(|s| - k);
      DifferenceOfSums(s, t, k);
      var q := HashSum(s) / WORD - HashSum(t) / WORD;
      assert d * p == WORD * q;
      DivUnique(d * p, WORD, q, 0);
      Pow2At32();
      OddCancels(d, p, 32);
      if d > 0 {
        DivUnique(d, WORD, 0, d);
      } else {
        DivUnique(d, WORD, -1, d + WORD);
      }
      assert false;
    }
  }

  // ----- the MAC of an interface

  /** The product of the two hashes as a word, its bytes least significant first, then two zeros. */
  function MacOf(nodeHash: nat, intfHash: nat): Mac {
    var h := (nodeHash * intfHash) % WORD;
    [h % 256, h / 256 % 256, h / 65536 % 256, h / 16777216, 0, 0]
  }

  /** The first four bytes of a MAC as a number, least significant first. */
  function LowWord(m: Mac): int {
    m[0] as int + 256 * (m[1] as int) + 65536 * (m[2] as int) + 16777216 * (m[3] as int)
  }

  lemma MacIsTheProduct(nodeHash: nat, intfHash: nat)
    ensures var m := MacOf(nodeHash, intfHash);
      LowWord(m) == (nodeHash * intfHash) % WORD && m[4] == m[5] == 0
  {
    BytesOf((nodeHash * intfHash) % WORD);
  }

  /** `interface_assign_mac_address`: two hashes, multiplied as words, copied over a cleared MAC. */
  method AssignMac(nodeName: seq<Char>, intfName: seq<Char>) returns (mac: Mac)
    ensures mac == MacOf(HashSum(nodeName) % WORD, HashSum(intfName) % WORD)
    ensures 0 <= LowWord(mac) < WORD && (HashSum(nodeName) * HashSum(intfName) - LowWord(mac)) % WORD == 0
    ensures mac[4] == mac[5] == 0
  {
    var nodeHash := ComputeHash(nodeName);
    var intfHash := ComputeHash(intfName);
    mac := MacOf(nodeHash, intfHash);
    MacIsTheProduct(nodeHash, intfHash);
    ProductOfWords(HashSum(nodeName), HashSum(intfName));
  }

  lemma ProductOfWords(a: int, b: int)
    ensures (a * b - (a % WORD * (b % WORD)) % WORD) % WORD == 0
  {
    var p, q, m, n := a / WORD, b / WORD, a % WORD, b % WORD;
    var k := m * n / WORD;
    assert a * b == m * n + WORD * (p * b + m * q) by {
      MulAssoc(WORD, p, b);
      MulAssoc(WORD, q, m);
      assert a * b == (WORD * p + m) * b == WORD * p * b + m * b;
      assert m * b == m * (WORD * q + n) == WORD * q * m + m * n;
    }
    DivUnique(a * b - m * n % WORD, WORD, p * b + m * q + k, 0);
  }

  lemma MacOfInjective(a: nat, b: nat, c: nat, d: nat)
    requires MacOf(a, b) == MacOf(c, d)
    ensures (a * b) % WORD == (c * d) % WORD
  {
    var m, n := MacOf(a, b), MacOf(c, d);
    BytesOf((a * b) % WORD);
    BytesOf((c * d) % WORD);
    assert m[0] == n[0] && m[1] == n[1] && m[2] == n[2] && m[3] == n[3];
  }

  lemma BytesOf(h: nat)
    ensures h == h % 256 + 256 * (h / 256 % 256) + 65536 * (h / 65536 % 256) + 16777216 * (h / 16777216)
  {
    assert h / 65536 == (h / 256) / 256;
    assert h / 16777216 == (h / 65536) / 256;
  }

  /** The sixteen characters an interface name is stored in: the name, and zeros. */
  ghost predicate IsStoredName(s: seq<Char>) {
    |s| == 16 && exists k :: NameOf(s, k)
  }

  ghost predicate NameOf(s: seq<Char>, k: int)
    requires |s| == 16
  {
    0 <= k < 16 && (forall i :: 0 <= i < k ==> s[i] != 0) && forall i :: k <= i < 16 ==> s[i] == 0
  }

  function Zeros(n: nat): (z: seq<Char>)
    ensures |z| == n && forall i :: 0 <= i < n ==> z[i] == 0
  {
    if n == 0 then [] else Zeros(n - 1) + [0]
  }

  lemma {:induction false} HashPadded(s: seq<Char>, n: nat)
    ensures HashSum(s + Zeros(n)) == HashSum(s) * Pow97(n)
  {
    if n == 0 {
      assert s + Zeros(0) == s;
    } else {
      HashPadded(s, n - 1);
      HashAppend(s + Zeros(n - 1), 0);
      assert s + Zeros(n) == (s + Zeros(n - 1)) + [0];
      MulAssoc(HashSum(s), Pow97(n - 1), 97);
    }
  }

  /** The names "HI-BB" and "0010a". */
  const NAME1: seq<Char> := [72, 73, 45, 66, 66]
  const NAME2: seq<Char> := [48, 48, 49, 48, 97]

  lemma HashOfFive(a: Char, b: Char, c: Char, d: Char, e: Char)
    ensures HashSum([a, b, c, d, e]) == ((((a * 97 + b) * 97 + c) * 97 + d) * 97 + e) * 97
  {
    assert HashSum([]) == 0;
    HashAppend([], a);
    HashAppend([a], b);
    HashAppend([a, b], c);
    HashAppend([a, b, c], d);
    HashAppend([a, b, c, d], e);
    assert [] + [a] == [a] && [a] + [b] == [a, b] && [a, b] + [c] == [a, b, c];
    assert [a, b, c] + [d] == [a, b, c, d] && [a, b, c, d] + [e] == [a, b, c, d, e];
  }

  /** Their hashes differ in the highest bit only. */
  lemma HashesHalfAWordApart()
    ensures IsStoredName(NAME1 + Zeros(11)) && IsStoredName(NAME2 + Zeros(11))
    ensures HashSum(NAME1 + Zeros(11)) - HashSum(NAME2 + Zeros(11)) == 0x8000_0000 * (97 * Pow97(11))
  {
    assert NameOf(NAME1 + Zeros(11), 5) && NameOf(NAME2 + Zeros(11), 5);
    HashPadded(NAME1, 11);
    HashPadded(NAME2, 11);
    HashOfFive(72, 73, 45, 66, 66);
    HashOfFive(48, 48, 49, 48, 97);
    assert HashSum(NAME1) - HashSum(NAME2) == 0x8000_0000 * 97;
    var p := Pow97(11);
    assert HashSum(NAME1) * p - HashSum(NAME2) * p == (HashSum(NAME1) - HashSum(NAME2)) * p;
    MulAssoc(0x8000_0000, 97, p);
  }

  lemma HalfAWordApart(x: int, y: int, odd: nat) returns (m: int)
    requires odd % 2 == 1 && x - y == 0x8000_0000 * odd
    ensures m % 2 == 1 && x % WORD - y % WORD == 0x8000_0000 * m
  {
    var k := x / WORD - y / WORD;
    m := odd - 2 * k;
  }

  lemma HalfTimesEven(n: nat, m: int)
    requires n % 2 == 0
    ensures n * (0x8000_0000 * m) == WORD * (n / 2 * m)
  {
    MulAssoc(n / 2, m, WORD);
    MulAssoc(2 * (n / 2), 0x8000_0000, m);
    assert n == 2 * (n / 2);
  }

  /** Hashes half a word apart give the same low word of the product with an even factor. */
  lemma EvenHashConfuses(nodeHash: nat, x: int, y: int, odd: nat)
    requires nodeHash % 2 == 0 && odd % 2 == 1 && x - y == 0x8000_0000 * odd
    ensures x % WORD != y % WORD && MacOf(nodeHash, x % WORD) == MacOf(nodeHash, y % WORD)
  {
    var m := HalfAWordApart(x, y, odd);
    SameLowWord(nodeHash, x % WORD, y % WORD, m);
  }

  lemma SameLowWord(n: nat, a: nat, b: nat, m: int)
    requires n % 2 == 0 && a - b == 0x8000_0000 * m
    ensures (n * a) % WORD == (n * b) % WORD
  {
    HalfTimesEven(n, m);
    assert n * a - n * b == n * (a - b);
    ModShift(n * b, n / 2 * m);
  }

  /** On a node, interfaces whose hashes differ always have different MACs iff the node's own hash is odd. */
  lemma MacsDifferIff(nodeHash: nat)
    ensures nodeHash % 2 == 1 <==> forall s: seq<Char>, t: seq<Char> :: HashesTellApart(nodeHash, s, t)
  {
    if nodeHash % 2 == 1 {
      forall s: seq<Char>, t: seq<Char> ensures HashesTellApart(nodeHash, s, t) {
        if HashSum(s) % WORD != HashSum(t) % WORD {
          OddHashTellsApart(nodeHash, HashSum(s) % WORD, HashSum(t) % WORD);
        }
      }
    } else {
      var s, t := NAME1 + Zeros(11), NAME2 + Zeros(11);
      HashesHalfAWordApart();
      EvenHashConfuses(nodeHash, HashSum(s), HashSum(t), 97 * Pow97(11));
      assert !HashesTellApart(nodeHash, s, t);
    }
  }

  ghost predicate HashesTellApart(nodeHash: nat, s: seq<Char>, t: seq<Char>) {
    IsStoredName(s) && IsStoredName(t) && HashSum(s) % WORD != HashSum(t) % WORD ==>
      MacOf(nodeHash, HashSum(s) % WORD) != MacOf(nodeHash, HashSum(t) % WORD)
  }

  lemma OddHashTellsApart(nodeHash: nat, a: nat, b: nat)
    requires nodeHash % 2 == 1 && a < WORD && b < WORD && a != b
    ensures MacOf(nodeHash, a) != MacOf(nodeHash, b)
  {
    if MacOf(nodeHash, a) == MacOf(nodeHash, b) {
      MacOfInjective(nodeHash, a, nodeHash, b);
      var q := (nodeHash * a) / WORD - (nodeHash * b) / WORD;
      assert (a - b) * nodeHash == WORD * q;
      DivUnique((a - b) * nodeHash, WORD, q, 0);
      Pow2At32();
      OddCancels(a - b, nodeHash, 32);
      DivUnique(a - b, WORD, if a > b then 0 else -1, if a > b then a - b else a - b + WORD);
      assert false;
    }
  }

  /** So on such a node, interfaces whose names differ in one character have different MACs. */
  lemma MacsTellInterfacesApart(nodeHash: nat, s: seq<Char>, t: seq<Char>, k: nat)
    requires nodeHash % 2 == 1 && DifferAt(s, t, k)
    ensures MacOf(nodeHash, HashSum(s) % WORD) != MacOf(nodeHash, HashSum(t) % WORD)
  {
    OneCharacterChangesHash(s, t, k);
    OddHashTellsApart(nodeHash, HashSum(s) % WORD, HashSum(t) % WORD);
  }
}
