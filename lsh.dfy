/**
 * The integer and string core of min-hash locality-sensitive hashing
 * (lsh.py): k-shingles of a text, the shared vocabulary, one-hot vectors
 * over it, min-hash signatures for given permutations, band splitting and
 * candidate pairs. numpy arrays are sequences; the permutations are an input.
 */
module Lsh {
  import opened Wrappers

  /** The `k` characters of `text` from position `i`: `text[i:i+k]`. */
  function Window(text: string, i: nat, k: nat): (w: string)
    requires i + k <= |text|
    ensures |w| == k
  {
    text[i..i + k]
  }

  /** `s` is a piece of `text` of exactly `k` characters. */
  ghost predicate IsShingle(text: string, k: nat, s: string)
  {
    exists i: nat :: i + k <= |text| && Window(text, i, k) == s
  }

  /** A set built from a list has no more elements than the list. */
  lemma {:induction false} SetOfSeqSize(xs: seq<string>)
    ensures |set x | x in xs| <= |xs|
  {
    if xs != [] {
      var front := xs[..|xs| - 1];
      SetOfSeqSize(front);
      assert (set x | x in xs) == (set x | x in front) + {xs[|xs| - 1]};
    }
  }

  /** `shingle(text, k)`: every window of `k` consecutive characters, as a set. */
  method Shingle(text: string, k: nat) returns (shingles: set<string>)
    ensures forall s :: s in shingles <==> IsShingle(text, k, s)
    ensures |shingles| <= if k <= |text| then |text| - k + 1 else 0
  {
    var shingleList: seq<string> := [];
    var i := 0;
    while i < |text| - k + 1
      invariant 0 <= i
      invariant k <= |text| + 1 ==> i <= |text| - k + 1
      invariant k > |text| + 1 ==> i == 0
      invariant |shingleList| == i
      invariant forall j :: 0 <= j < i ==> shingleList[j] == Window(text, j, k)
    {
      shingleList := shingleList + [Window(text, i, k)];
      i := i + 1;
    }
    shingles := set s | s in shingleList;
    forall s ensures s in shingles <==> IsShingle(text, k, s) {
      if IsShingle(text, k, s) {
        var j: nat :| j + k <= |text| && Window(text, j, k) == s;
        assert shingleList[j] == s;
      }
    }
    SetOfSeqSize(shingleList);
    assert k == |text| + 1 ==> shingleList == [];
  }

  /** `gen_vocab`: the union of all shingle sets. */
  function GenVocab(shingles: seq<set<string>>): (vocab: set<string>)
    ensures forall i :: 0 <= i < |shingles| ==> shingles[i] <= vocab
    ensures forall x :: x in vocab ==> exists i :: 0 <= i < |shingles| && x in shingles[i]
  {
    if shingles == [] then {}
    else GenVocab(shingles[..|shingles| - 1]) + shingles[|shingles| - 1]
  }

  /** `one_hot(shingle, vocab)`; `vocab` is the vocabulary in the order in
      which Python iterates the set. */
  function OneHot(shingle: set<string>, vocab: seq<string>): (oneHot: seq<int>)
    ensures |oneHot| == |vocab|
    ensures forall i :: 0 <= i < |vocab| ==> oneHot[i] == (if vocab[i] in shingle then 1 else 0)
  {
    seq(|vocab|, i requires 0 <= i < |vocab| => if vocab[i] in shingle then 1 else 0)
  }

  /** The words a one-hot vector marks. */
  ghost function Marked(oneHot: seq<int>, vocab: seq<string>): set<string>
    requires |oneHot| == |vocab|
  {
    set i | 0 <= i < |vocab| && oneHot[i] != 0 :: vocab[i]
  }

  /** One-hot encoding loses only the words missing from the vocabulary. */
  lemma OneHotRoundTrip(shingle: set<string>, vocab: seq<string>)
    ensures Marked(OneHot(shingle, vocab), vocab) == shingle * (set w | w in vocab)
  {
    var oneHot := OneHot(shingle, vocab);
    forall w | w in shingle * (set w | w in vocab)
      ensures w in Marked(oneHot, vocab)
    {
      var i :| 0 <= i < |vocab| && vocab[i] == w;
      assert oneHot[i] != 0;
    }
  }

  /** Over the generated vocabulary, every document's shingle set is recovered
      from its one-hot vector. */
  lemma OneHotOverVocab(shingles: seq<set<string>>, vocab: seq<string>, d: nat)
    requires (set w | w in vocab) == GenVocab(shingles)
    requires d < |shingles|
    ensures Marked(OneHot(shingles[d], vocab), vocab) == shingles[d]
  {
    OneHotRoundTrip(shingles[d], vocab);
  }

  /** `sign_value`: the least permutation entry over the positions the
      one-hot vector marks; None where numpy's `min` of an empty array raises. */
  function SignValue(oneHot: seq<int>, perm: seq<int>): (value: Option<int>)
    requires |oneHot| <= |perm|
    ensures value.None? <==> forall i :: 0 <= i < |oneHot| ==> oneHot[i] == 0
    ensures value.Some? ==>
      (exists i :: 0 <= i < |oneHot| && oneHot[i] != 0 && perm[i] == value.value) &&
      (forall i :: 0 <= i < |oneHot| && oneHot[i] != 0 ==> value.value <= perm[i])
  {
    if oneHot == [] then None
    else
      var n := |oneHot| - 1;
      var rest := SignValue(oneHot[..n], perm);
      if oneHot[n] == 0 then rest
      else if rest.None? || perm[n] < rest.value then Some(perm[n])
      else rest
  }

  /** The element-wise "or" of two one-hot vectors: the union of the marked sets. */
  function Union(a: seq<int>, b: seq<int>): (u: seq<int>)
    requires |a| == |b|
    ensures |u| == |a|
    ensures forall i :: 0 <= i < |a| ==> (u[i] != 0 <==> a[i] != 0 || b[i] != 0)
  {
    seq(|a|, i requires 0 <= i < |a| => if a[i] != 0 || b[i] != 0 then 1 else 0)
  }

  /** The min-hash of a union is the smaller of the two min-hashes. */
  lemma {:induction false} SignValueOfUnion(a: seq<int>, b: seq<int>, perm: seq<int>)
    requires |a| == |b| <= |perm|
    requires SignValue(a, perm).Some? && SignValue(b, perm).Some?
    ensures SignValue(Union(a, b), perm) ==
      Some(if SignValue(a, perm).value <= SignValue(b, perm).value
           then SignValue(a, perm).value else SignValue(b, perm).value)
  {
    var u := Union(a, b);
    var sa, sb := SignValue(a, perm).value, SignValue(b, perm).value;
    var ia :| 0 <= ia < |a| && a[ia] != 0 && perm[ia] == sa;
    var ib :| 0 <= ib < |b| && b[ib] != 0 && perm[ib] == sb;
    var i := if sa <= sb then ia else ib;
    forall j | 0 <= j < |u| && u[j] != 0
      ensures perm[i] <= perm[j]
    {
      if a[j] != 0 {
        assert sa <= perm[j];
      } else {
        assert sb <= perm[j];
      }
    }
    SignValueAt(u, perm, i);
  }

  /** A marked position whose `perm` entry is no larger than that of any
      other marked position gives the signature value. */
  lemma SignValueAt(oneHot: seq<int>, perm: seq<int>, i: nat)
    requires |oneHot| <= |perm| && i < |oneHot| && oneHot[i] != 0
    requires forall j :: 0 <= j < |oneHot| && oneHot[j] != 0 ==> perm[i] <= perm[j]
    ensures SignValue(oneHot, perm) == Some(perm[i])
  {
    var v := SignValue(oneHot, perm);
    var k :| 0 <= k < |oneHot| && oneHot[k] != 0 && perm[k] == v.value;
    assert perm[i] <= perm[k];
  }

  /** No two positions of `perm` hold the same number. */
  predicate Injective(perm: seq<int>)
  {
    forall i, j :: 0 <= i < j < |perm| ==> perm[i] != perm[j]
  }

  /** The min-hash property: under a permutation without repeats, two
      documents get the same signature value exactly when the position that
      gives their union its value is marked in both. */
  lemma {:induction false} SignValuesAgree(a: seq<int>, b: seq<int>, perm: seq<int>, k: nat)
    requires |a| == |b| <= |perm| && Injective(perm)
    requires SignValue(a, perm).Some? && SignValue(b, perm).Some?
    requires k < |a| && Union(a, b)[k] != 0 && perm[k] == SignValue(Union(a, b), perm).value
    ensures SignValue(a, perm) == SignValue(b, perm) <==> a[k] != 0 && b[k] != 0
  {
    SignValueOfUnion(a, b, perm);
    var m := perm[k];
    var sa, sb := SignValue(a, perm).value, SignValue(b, perm).value;
    if a[k] != 0 && b[k] != 0 {
      assert sa <= m && sb <= m;
    }
    if sa == sb {
      var ia :| 0 <= ia < |a| && a[ia] != 0 && perm[ia] == sa;
      var ib :| 0 <= ib < |b| && b[ib] != 0 && perm[ib] == sb;
      assert sa == m;
      assert ia == k;
      assert ib == k;
    }
  }

  /** `min_hash`: one signature value per permutation; None where a
      `sign_value` call raises. */
  method MinHash(oneHot: seq<int>, perms: seq<seq<int>>) returns (signature: Option<seq<int>>)
    requires forall i :: 0 <= i < |perms| ==> |oneHot| <= |perms[i]|
    ensures signature.None? <==> |perms| > 0 && forall i :: 0 <= i < |oneHot| ==> oneHot[i] == 0
    ensures signature.Some? ==>
      |signature.value| == |perms| &&
      forall i :: 0 <= i < |perms| ==> SignValue(oneHot, perms[i]) == Some(signature.value[i])
  {
    var values: seq<int> := [];
    var i := 0;
    while i < |perms|
      invariant 0 <= i <= |perms|
      invariant |values| == i
      invariant forall j :: 0 <= j < i ==> SignValue(oneHot, perms[j]) == Some(values[j])
    {
      var value := SignValue(oneHot, perms[i]);
      if value.None? {
        return None;
      }
      values := values + [value.value];
      i := i + 1;
    }
    if |perms| > 0 {
      assert SignValue(oneHot, perms[0]).Some?;
    }
    return Some(values);
  }

  /** `split_signature(sign, b)`: the row-major reshape into `b` bands of equal
      width; None where numpy raises (no bands, or a length `b` does not divide). */
  function SplitSignature(sign: seq<int>, b: nat): (bands: Option<seq<seq<int>>>)
    ensures bands.Some? <==> b > 0 && |sign| % b == 0
    ensures bands.Some? ==>
      |bands.value| == b &&
      forall r :: 0 <= r < b ==> |bands.value[r]| == |sign| / b
  {
    if b == 0 || |sign| % b != 0 then None
    else
      var w := |sign| / b;
      assert b * w == |sign|;
      Some(seq(b, r requires 0 <= r < b => MulLe(r + 1, b, w); RowAt(sign, w, r)))
  }

  lemma {:induction false} MulLe(x: nat, y: nat, w: nat)
    requires x <= y
    ensures x * w <= y * w
    decreases y - x
  {
    if x < y {
      MulLe(x + 1, y, w);
      assert (x + 1) * w == x * w + w;
    }
  }

  /** Row `r` of width `w`. */
  function RowAt(sign: seq<int>, w: nat, r: nat): (row: seq<int>)
    requires (r + 1) * w <= |sign|
    ensures |row| == w
  {
    sign[r * w..(r + 1) * w]
  }

  /** The rows, laid end to end. */
  function Flatten(rows: seq<seq<int>>): seq<int>
  {
    if rows == [] then [] else Flatten(rows[..|rows| - 1]) + rows[|rows| - 1]
  }

  lemma {:induction false} FlattenRows(sign: seq<int>, w: nat, n: nat)
    requires n * w <= |sign|
    ensures Flatten(seq(n, r requires 0 <= r < n => MulLe(r + 1, n, w); RowAt(sign, w, r))) == sign[..n * w]
  {
    if n > 0 {
      var k := (n - 1) * w;
      assert k + w == n * w;
      var rows := seq(n, r requires 0 <= r < n => MulLe(r + 1, n, w); RowAt(sign, w, r));
      var front := seq(n - 1, r requires 0 <= r < n - 1 => MulLe(r + 1, n - 1, w); RowAt(sign, w, r));
      forall r | 0 <= r < n - 1
        ensures rows[r] == front[r]
      {
      }
      assert rows[..n - 1] == front;
      assert rows[n - 1] == sign[k..k + w];
      FlattenRows(sign, w, n - 1);
      assert Flatten(rows) == sign[..k] + sign[k..k + w];
      assert sign[..k] + sign[k..k + w] == sign[..k + w];
    }
  }

  /** Splitting loses nothing: laying the bands end to end gives the signature back. */
  lemma {:induction false} SplitSignatureRoundTrip(sign: seq<int>, b: nat)
    requires b > 0 && |sign| % b == 0
    ensures Flatten(SplitSignature(sign, b).value) == sign
  {
    var w := |sign| / b;
    assert b * w == |sign|;
    assert SplitSignature(sign, b).value == seq(b, r requires 0 <= r < b => MulLe(r + 1, b, w); RowAt(sign, w, r));
    FlattenRows(sign, w, b);
    assert sign[..b * w] == sign;
  }

  /** Entry `c` of band `r` is entry `r * w + c` of the signature, `w` being
      the band width. */
  lemma {:induction false} BandEntry(sign: seq<int>, b: nat, r: nat, c: nat)
    requires b > 0 && |sign| % b == 0 && r < b && c < |sign| / b
    ensures r * (|sign| / b) + c < |sign|
    ensures SplitSignature(sign, b).value[r][c] == sign[r * (|sign| / b) + c]
  {
    var w := |sign| / b;
    DivExact(|sign|, b);
    MulLe(r + 1, b, w);
    assert (r + 1) * w == r * w + w;
    assert SplitSignature(sign, b).value[r] == RowAt(sign, w, r);
  }

  lemma DivExact(n: nat, b: nat)
    requires b > 0 && n % b == 0
    ensures b * (n / b) == n
  {
  }

  /** One entry of `calc_candidate_pairs`: the pair's id and its verdict. */
  datatype CandidatePair = CandidatePair(id: string, candidate: bool)

  /** Some band of `a` equals the same band of `b` (bands paired as `zip` pairs them). */
  predicate BandMatch(a: seq<seq<int>>, b: seq<seq<int>>)
  {
    exists r :: 0 <= r < |a| && r < |b| && a[r] == b[r]
  }

  /** All band rows of all documents have one width, as `split_signature` makes them. */
  predicate SameWidth(signMatrix: seq<seq<seq<int>>>, w: nat)
  {
    forall d, r :: 0 <= d < |signMatrix| && 0 <= r < |signMatrix[d]| ==> |signMatrix[d][r]| == w
  }

  function Entry(names: seq<string>, signMatrix: seq<seq<seq<int>>>, i: nat, j: nat): CandidatePair
    requires j < i < |names| <= |signMatrix|
  {
    CandidatePair(names[i] + "-" + names[j], BandMatch(signMatrix[i], signMatrix[j]))
  }

  /** The entries for documents `0..n`, row `i` holding the pairs `(i, j)`, `j < i`. */
  function PairsUpTo(names: seq<string>, signMatrix: seq<seq<seq<int>>>, n: nat): seq<CandidatePair>
    requires n <= |names| <= |signMatrix|
  {
    if n == 0 then []
    else
      PairsUpTo(names, signMatrix, n - 1) +
      seq(n - 1, j requires 0 <= j < n - 1 => Entry(names, signMatrix, n - 1, j))
  }

  /** `0 + 1 + ... + (n - 1)`. */
  function Triangle(n: nat): nat
  {
    if n == 0 then 0 else Triangle(n - 1) + (n - 1)
  }

  /** The closed form `n(n-1)/2`. */
  lemma {:induction false} TriangleFormula(n: nat)
    ensures 2 * Triangle(n) == n * (n - 1)
  {
    if n > 0 {
      TriangleFormula(n - 1);
      assert n * (n - 1) == (n - 1) * (n - 2) + 2 * (n - 1);
    }
  }

  /** There are `n(n-1)/2` entries. */
  lemma {:induction false} PairsLength(names: seq<string>, signMatrix: seq<seq<seq<int>>>, n: nat)
    requires n <= |names| <= |signMatrix|
    ensures |PairsUpTo(names, signMatrix, n)| == Triangle(n)
  {
    if n > 0 {
      PairsLength(names, signMatrix, n - 1);
    }
  }

  /** Pair `(i, j)` is at position `i(i-1)/2 + j`. */
  lemma {:induction false} PairAt(names: seq<string>, signMatrix: seq<seq<seq<int>>>, n: nat, i: nat, j: nat)
    requires n <= |names| <= |signMatrix|
    requires j < i < n
    ensures Triangle(i) + j < |PairsUpTo(names, signMatrix, n)|
    ensures PairsUpTo(names, signMatrix, n)[Triangle(i) + j] == Entry(names, signMatrix, i, j)
  {
    PairsLength(names, signMatrix, n - 1);
    var before := PairsUpTo(names, signMatrix, n - 1);
    var row := seq(n - 1, q requires 0 <= q < n - 1 => Entry(names, signMatrix, n - 1, q));
    assert PairsUpTo(names, signMatrix, n) == before + row;
    if i < n - 1 {
      PairAt(names, signMatrix, n - 1, i, j);
    } else {
      assert PairsUpTo(names, signMatrix, n)[Triangle(i) + j] == row[j];
    }
  }

  /** `calc_candidate_pairs`: for every `i` and every `j < i`, the id
      `names[i]-names[j]` and whether some band row of `i` equals the same band
      row of `j`. */
  method CalcCandidatePairs(names: seq<string>, signMatrix: seq<seq<seq<int>>>, ghost w: nat)
    returns (candPairs: seq<CandidatePair>)
    requires |names| <= |signMatrix|
    requires SameWidth(signMatrix, w)
    ensures candPairs == PairsUpTo(names, signMatrix, |names|)
  {
    candPairs := [];
    var i := 0;
    while i < |names|
      invariant 0 <= i <= |names|
      invariant candPairs == PairsUpTo(names, signMatrix, i)
    {
      var j := 0;
      while j < i
        invariant 0 <= j <= i
        invariant candPairs == PairsUpTo(names, signMatrix, i) +
          seq(j, q requires 0 <= q < j => Entry(names, signMatrix, i, q))
      {
        var candidate := false;
        var id := names[i] + "-" + names[j];
        var r := 0;
        while r < |signMatrix[i]| && r < |signMatrix[j]|
          invariant 0 <= r && r <= |signMatrix[i]| && r <= |signMatrix[j]|
          invariant forall q :: 0 <= q < r ==> signMatrix[i][q] != signMatrix[j][q]
          invariant !candidate
        {
          if signMatrix[i][r] == signMatrix[j][r] {
            candidate := true;
            break;
          }
          r := r + 1;
        }
        assert candidate == BandMatch(signMatrix[i], signMatrix[j]);
        candPairs := candPairs + [CandidatePair(id, candidate)];
        j := j + 1;
      }
      i := i + 1;
    }
  }

  /** With one band, documents are candidates exactly when their signatures are equal. */
  lemma OneBandCandidates(s1: seq<int>, s2: seq<int>)
    requires |s1| == |s2|
    ensures BandMatch(SplitSignature(s1, 1).value, SplitSignature(s2, 1).value) <==> s1 == s2
  {
    assert |s1| % 1 == 0 && |s1| / 1 == |s1| && |s2| / 1 == |s2|;
    var m1, m2 := SplitSignature(s1, 1).value, SplitSignature(s2, 1).value;
    assert m1[0] == s1 by { assert m1[0] == RowAt(s1, |s1|, 0); }
    assert m2[0] == s2 by { assert m2[0] == RowAt(s2, |s2|, 0); }
  }

  /** Documents with equal signatures are always candidates, whatever the band count. */
  lemma EqualSignaturesAreCandidates(s1: seq<int>, s2: seq<int>, b: nat)
    requires s1 == s2 && b > 0 && |s1| % b == 0
    ensures BandMatch(SplitSignature(s1, b).value, SplitSignature(s2, b).value)
  {
    assert SplitSignature(s1, b).value[0] == SplitSignature(s2, b).value[0];
  }
}
