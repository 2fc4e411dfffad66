/**
 * The face-matching decision of `FaceRecognizer`: L2 normalisation, the
 * two-metric distance, the cached grouping of database rows into per-user
 * embedding lists with one prototype per user, and the scan that picks the
 * best-scoring user and accepts it below a strict threshold.
 */
module FaceRecognizer {
  import opened Wrappers
  import opened Vectors

  type UserId = int

  /** One database row: a user and one stored embedding. */
  datatype Row = Row(userId: UserId, embedding: Vec)

  /**
   * An insertion-ordered Python dict: `keys` lists the keys in insertion
   * order, `entries` holds the values.
   */
  datatype Dict<V> = Dict(keys: seq<UserId>, entries: map<UserId, V>)
  {
    predicate Valid() {
      (forall i, j :: 0 <= i < j < |keys| ==> keys[i] != keys[j]) &&
      (forall u :: u in entries ==> u in keys) &&
      (forall i :: 0 <= i < |keys| ==> keys[i] in entries)
    }
  }

  /** The constructor's default threshold and metric. */
  const DefaultThreshold: real := 0.45
  const Cosine: string := "cosine"

  // ----------------------------------------------------------------------
  // Normalisation and the two-metric distance
  // ----------------------------------------------------------------------

  /** `_l2_normalize`: divide by the norm when it is positive, else keep the vector. */
  function L2Normalize(sqrt: real -> real, v: Vec): (r: Vec)
    requires IsSqrt(sqrt)
    ensures |r| == |v|
  {
    var n := Norm(sqrt, v);
    if n > 0.0 then DivBy(v, n) else v
  }

  /** A vector of norm zero (the zero vector) is returned unchanged. */
  lemma L2NormalizeZero(sqrt: real -> real, v: Vec)
    requires IsSqrt(sqrt) && IsZero(v)
    ensures L2Normalize(sqrt, v) == v
  {
    NormZeroIff(sqrt, v);
  }

  /** Any other vector is rescaled into a vector of norm one. */
  lemma L2NormalizeUnit(sqrt: real -> real, v: Vec)
    requires IsSqrt(sqrt) && !IsZero(v)
    ensures SumSq(L2Normalize(sqrt, v)) == 1.0 && Norm(sqrt, L2Normalize(sqrt, v)) == 1.0
  {
    NormZeroIff(sqrt, v);
    UnitAfterDivide(sqrt, v);
  }

  /** The rescaling is by the norm: multiplying back by the norm restores the vector. */
  lemma L2NormalizeScales(sqrt: real -> real, v: Vec)
    requires IsSqrt(sqrt) && !IsZero(v)
    ensures forall i :: 0 <= i < |v| ==> L2Normalize(sqrt, v)[i] * Norm(sqrt, v) == v[i]
  {
    NormZeroIff(sqrt, v);
    DivByScales(v, Norm(sqrt, v));
  }

  /** Normalising sends exactly the zero vector to the zero vector. */
  lemma L2NormalizeZeroIff(sqrt: real -> real, v: Vec)
    requires IsSqrt(sqrt)
    ensures IsZero(L2Normalize(sqrt, v)) <==> IsZero(v)
  {
    if IsZero(v) {
      L2NormalizeZero(sqrt, v);
    } else {
      L2NormalizeUnit(sqrt, v);
      SumSqZero(L2Normalize(sqrt, v));
    }
  }

  /** Normalising twice is normalising once. */
  lemma L2NormalizeIdempotent(sqrt: real -> real, v: Vec)
    requires IsSqrt(sqrt)
    ensures L2Normalize(sqrt, L2Normalize(sqrt, v)) == L2Normalize(sqrt, v)
  {
    var r := L2Normalize(sqrt, v);
    if IsZero(v) {
      L2NormalizeZero(sqrt, v);
    } else {
      L2NormalizeUnit(sqrt, v);
      NormZeroIff(sqrt, r);
      assert DivBy(r, 1.0) == r;
    }
  }

  /**
   * `compare_embeddings`: under "cosine", one minus the dot product of the
   * normalised vectors; under any other metric string, the Euclidean
   * distance. Either way the distance is never negative, and under cosine it
   * is at most 2.
   */
  function Compare(sqrt: real -> real, metric: string, a: Vec, b: Vec): (r: real)
    requires IsSqrt(sqrt) && |a| == |b|
    ensures 0.0 <= r
    ensures metric == Cosine ==> r <= 2.0
  {
    if metric == Cosine then
      NormalisedDotBounds(sqrt, a, b);
      1.0 - Dot(L2Normalize(sqrt, a), L2Normalize(sqrt, b))
    else
      EuclideanDistance(sqrt, a, b)
  }

  /**
   * The dot product of the normalised vectors lies in [-1, 1], and it is 1
   * exactly when neither vector is zero and both have the same direction.
   */
  lemma NormalisedDotBounds(sqrt: real -> real, a: Vec, b: Vec)
    requires IsSqrt(sqrt) && |a| == |b|
    ensures -1.0 <= Dot(L2Normalize(sqrt, a), L2Normalize(sqrt, b)) <= 1.0
    ensures Dot(L2Normalize(sqrt, a), L2Normalize(sqrt, b)) == 1.0 <==>
      !IsZero(a) && !IsZero(b) && L2Normalize(sqrt, a) == L2Normalize(sqrt, b)
  {
    var u, v := L2Normalize(sqrt, a), L2Normalize(sqrt, b);
    if IsZero(a) {
      L2NormalizeZero(sqrt, a);
      DotZeroLeft(u, v);
    } else if IsZero(b) {
      L2NormalizeZero(sqrt, b);
      DotZeroLeft(v, u);
      DotSymmetric(u, v);
    } else {
      L2NormalizeUnit(sqrt, a);
      L2NormalizeUnit(sqrt, b);
      UnitDotBounds(u, v);
      UnitDotOneIff(u, v);
    }
  }

  /**
   * Under cosine, the distance is zero exactly between non-zero vectors with
   * the same direction.
   */
  lemma CosineZeroIff(sqrt: real -> real, a: Vec, b: Vec)
    requires IsSqrt(sqrt) && |a| == |b|
    ensures Compare(sqrt, Cosine, a, b) == 0.0 <==>
      !IsZero(a) && !IsZero(b) && L2Normalize(sqrt, a) == L2Normalize(sqrt, b)
  {
    NormalisedDotBounds(sqrt, a, b);
  }

  /** Under the Euclidean metric, the distance is zero exactly between equal vectors. */
  lemma EuclideanZeroIff(sqrt: real -> real, metric: string, a: Vec, b: Vec)
    requires IsSqrt(sqrt) && |a| == |b| && metric != Cosine
    ensures Compare(sqrt, metric, a, b) == 0.0 <==> a == b
  {
    EuclideanDistanceZeroIff(sqrt, a, b);
  }

  /** Both metrics are symmetric. */
  lemma CompareSymmetric(sqrt: real -> real, metric: string, a: Vec, b: Vec)
    requires IsSqrt(sqrt) && |a| == |b|
    ensures Compare(sqrt, metric, a, b) == Compare(sqrt, metric, b, a)
  {
    if metric == Cosine {
      DotSymmetric(L2Normalize(sqrt, a), L2Normalize(sqrt, b));
    } else {
      EuclideanDistanceSymmetric(sqrt, a, b);
    }
  }

  /** Under cosine, a comparison involving a zero vector is exactly 1. */
  lemma CosineWithZero(sqrt: real -> real, a: Vec, b: Vec)
    requires IsSqrt(sqrt) && |a| == |b| && (IsZero(a) || IsZero(b))
    ensures Compare(sqrt, Cosine, a, b) == 1.0
  {
    if IsZero(a) {
      L2NormalizeZero(sqrt, a);
      DotZeroLeft(L2Normalize(sqrt, a), L2Normalize(sqrt, b));
    } else {
      L2NormalizeZero(sqrt, b);
      DotZeroLeft(L2Normalize(sqrt, b), L2Normalize(sqrt, a));
      DotSymmetric(L2Normalize(sqrt, b), L2Normalize(sqrt, a));
    }
  }

  /** Under cosine, a non-zero vector is at distance 0 from itself. */
  lemma CosineSelf(sqrt: real -> real, a: Vec)
    requires IsSqrt(sqrt) && !IsZero(a)
    ensures Compare(sqrt, Cosine, a, a) == 0.0
  {
    L2NormalizeUnit(sqrt, a);
    DotSelf(L2Normalize(sqrt, a));
  }

  /** Under cosine, a non-zero vector is at distance 2 from its opposite. */
  lemma CosineOpposite(sqrt: real -> real, a: Vec)
    requires IsSqrt(sqrt) && !IsZero(a)
    ensures Compare(sqrt, Cosine, a, Neg(a)) == 2.0
  {
    var n := L2Normalize(sqrt, a);
    L2NormalizeUnit(sqrt, a);
    NormZeroIff(sqrt, a);
    NormZeroIff(sqrt, Neg(a));
    SumSqNeg(a);
    assert Norm(sqrt, Neg(a)) == Norm(sqrt, a);
    assert !IsZero(Neg(a)) by {
      var i :| 0 <= i < |a| && a[i] != 0.0;
      assert Neg(a)[i] != 0.0;
    }
    DivByNeg(a, Norm(sqrt, a));
    assert L2Normalize(sqrt, Neg(a)) == Neg(n);
    DotNegRight(n, n);
    DotSelf(n);
  }

  // ----------------------------------------------------------------------
  // Grouping the database rows by user
  // ----------------------------------------------------------------------

  /** The users of `rows`, each once, in order of first appearance. */
  function UserOrder(rows: seq<Row>): (r: seq<UserId>)
    ensures forall i, j :: 0 <= i < j < |r| ==> r[i] != r[j]
    ensures forall u :: u in r <==> exists i :: 0 <= i < |rows| && rows[i].userId == u
    ensures forall k :: 0 <= k < |r| ==> exists i :: 0 <= i < |rows| && rows[i].userId == r[k]
  {
    if |rows| == 0 then []
    else
      var p := UserOrder(rows[..|rows| - 1]);
      var u := rows[|rows| - 1].userId;
      assert forall i :: 0 <= i < |rows| - 1 ==> rows[..|rows| - 1][i] == rows[i];
      if u in p then p else p + [u]
  }

  /** The position of the first row of user `u`. */
  function FirstRow(rows: seq<Row>, u: UserId): (i: nat)
    requires u in UserOrder(rows)
    ensures i < |rows| && rows[i].userId == u
    ensures forall j :: 0 <= j < i ==> rows[j].userId != u
  {
    var front := rows[..|rows| - 1];
    assert forall j :: 0 <= j < |front| ==> front[j] == rows[j];
    if u in UserOrder(front) then FirstRow(front, u) else |rows| - 1
  }

  /** Users come in the order of their first rows. */
  lemma {:induction false} UserOrderFollowsFirstRows(rows: seq<Row>, i: nat, j: nat)
    requires i < j < |UserOrder(rows)|
    ensures FirstRow(rows, UserOrder(rows)[i]) < FirstRow(rows, UserOrder(rows)[j])
  {
    var front := rows[..|rows| - 1];
    var p := UserOrder(front);
    if j < |p| {
      assert UserOrder(rows)[i] == p[i] && UserOrder(rows)[j] == p[j];
      UserOrderFollowsFirstRows(front, i, j);
    } else {
      assert UserOrder(rows)[i] == p[i];
    }
  }

  /** The embeddings of user `u`, in row order. */
  function EmbeddingsOf(rows: seq<Row>, u: UserId): (r: seq<Vec>)
    ensures |r| > 0 <==> exists i :: 0 <= i < |rows| && rows[i].userId == u
    ensures |r| <= |rows|
  {
    if |rows| == 0 then []
    else
      var front := rows[..|rows| - 1];
      var last := rows[|rows| - 1];
      assert forall i :: 0 <= i < |front| ==> front[i] == rows[i];
      EmbeddingsOf(front, u) + (if last.userId == u then [last.embedding] else [])
  }

  /** An embedding kept for `u` is the embedding of some row of `u`. */
  lemma {:induction false} EmbeddingsOfComeFromRows(rows: seq<Row>, u: UserId, k: nat)
    requires k < |EmbeddingsOf(rows, u)|
    ensures exists i :: 0 <= i < |rows| && rows[i].userId == u && rows[i].embedding == EmbeddingsOf(rows, u)[k]
  {
    var front := rows[..|rows| - 1];
    if k < |EmbeddingsOf(front, u)| {
      EmbeddingsOfComeFromRows(front, u, k);
      var i :| 0 <= i < |front| && front[i].userId == u && front[i].embedding == EmbeddingsOf(front, u)[k];
      assert rows[i] == front[i];
    } else {
      assert rows[|rows| - 1].userId == u;
    }
  }

  /** The positions of the rows of `u`. */
  function RowsOf(rows: seq<Row>, u: UserId): set<nat> {
    set i: nat | i < |rows| && rows[i].userId == u
  }

  /** Dropping the last row drops its position from the rows of its user only. */
  lemma RowsOfFront(rows: seq<Row>, u: UserId)
    requires |rows| > 0
    ensures RowsOf(rows, u) ==
      RowsOf(rows[..|rows| - 1], u) + if rows[|rows| - 1].userId == u then {|rows| - 1} else {}
  {
    var front := rows[..|rows| - 1];
    assert forall i :: 0 <= i < |front| ==> front[i] == rows[i];
  }

  /** Every row of `u` contributes its embedding: the list is as long as the row count. */
  lemma {:induction false} EmbeddingsOfCount(rows: seq<Row>, u: UserId)
    ensures |EmbeddingsOf(rows, u)| == |RowsOf(rows, u)|
  {
    if |rows| > 0 {
      var n := |rows| - 1;
      EmbeddingsOfCount(rows[..n], u);
      RowsOfFront(rows, u);
      assert n !in RowsOf(rows[..n], u);
    }
  }

  /** The user map built from `rows`: keys in first-appearance order. */
  function Group(rows: seq<Row>): (d: Dict<seq<Vec>>)
    ensures d.Valid()
    ensures d.keys == UserOrder(rows)
    ensures forall u :: u in d.entries ==> d.entries[u] == EmbeddingsOf(rows, u) && |d.entries[u]| > 0
  {
    var keys := UserOrder(rows);
    Dict(keys, map u | u in keys :: EmbeddingsOf(rows, u))
  }

  /**
   * The grouping loop of `_load_embeddings_from_db`: each row's embedding is
   * appended to its user's list, creating the list on the user's first row.
   */
  method GroupRows(rows: seq<Row>) returns (d: Dict<seq<Vec>>)
    ensures d == Group(rows)
  {
    var keys: seq<UserId> := [];
    var entries: map<UserId, seq<Vec>> := map[];
    for k := 0 to |rows|
      invariant keys == UserOrder(rows[..k])
      invariant forall u :: u in entries <==> u in keys
      invariant forall u :: u in entries ==> entries[u] == EmbeddingsOf(rows[..k], u)
    {
      var row := rows[k];
      assert rows[..k + 1][..k] == rows[..k];
      if row.userId in entries {
        entries := entries[row.userId := entries[row.userId] + [row.embedding]];
      } else {
        assert EmbeddingsOf(rows[..k], row.userId) == [];
        keys := keys + [row.userId];
        entries := entries[row.userId := [row.embedding]];
      }
    }
    assert rows[..|rows|] == rows;
    d := Dict(keys, entries);
  }

  // ----------------------------------------------------------------------
  // Prototypes
  // ----------------------------------------------------------------------

  /** The vector compared under `metric`: normalised under cosine, raw otherwise. */
  function Prepare(sqrt: real -> real, metric: string, v: Vec): (r: Vec)
    requires IsSqrt(sqrt)
    ensures |r| == |v|
  {
    if metric == Cosine then L2Normalize(sqrt, v) else v
  }

  /** The embeddings form one matrix: non-empty, all of one length. */
  predicate Stackable(embs: seq<Vec>) {
    |embs| > 0 && Uniform(embs, |embs[0]|)
  }

  /** A user's prototype: the column mean of their embeddings, normalised under cosine. */
  function Prototype(sqrt: real -> real, metric: string, embs: seq<Vec>): (r: Vec)
    requires IsSqrt(sqrt) && Stackable(embs)
    ensures |r| == |embs[0]|
  {
    Prepare(sqrt, metric, Mean(embs))
  }

  /** A user enrolled with copies of one embedding has that embedding (prepared) as prototype. */
  lemma PrototypeOfCopies(sqrt: real -> real, metric: string, embs: seq<Vec>, e: Vec)
    requires IsSqrt(sqrt) && |embs| > 0 && forall i :: 0 <= i < |embs| ==> embs[i] == e
    ensures Stackable(embs) && Prototype(sqrt, metric, embs) == Prepare(sqrt, metric, e)
  {
    MeanOfCopies(embs, e);
  }

  /** Every user's list can be stacked. */
  predicate AllStackable(d: Dict<seq<Vec>>) {
    forall u :: u in d.entries ==> Stackable(d.entries[u])
  }

  /** The prototype map: same keys in the same order, one prototype per user. */
  function PrototypesOf(sqrt: real -> real, metric: string, d: Dict<seq<Vec>>): (p: Dict<Vec>)
    requires IsSqrt(sqrt) && AllStackable(d)
  {
    Dict(d.keys, map u | u in d.entries :: Prototype(sqrt, metric, d.entries[u]))
  }

  /**
   * The prototype loop of `_load_embeddings_from_db`. `np.vstack` refuses a
   * user whose embeddings differ in length; otherwise every user gets the
   * mean of their embeddings, normalised under cosine, under the same key.
   */
  method BuildPrototypes(sqrt: real -> real, metric: string, d: Dict<seq<Vec>>) returns (r: Result<Dict<Vec>>)
    requires IsSqrt(sqrt) && d.Valid()
    requires forall u :: u in d.entries ==> |d.entries[u]| > 0
    ensures r.Ok? <==> AllStackable(d)
    ensures r.Ok? ==> r.value == PrototypesOf(sqrt, metric, d)
    ensures r.Ok? ==> r.value.keys == d.keys && r.value.Valid()
    ensures r.Err? ==> r.error == ShapeMismatch
  {
    var entries: map<UserId, Vec> := map[];
    for k := 0 to |d.keys|
      invariant forall i :: 0 <= i < k ==> Stackable(d.entries[d.keys[i]])
      invariant forall u :: u in entries <==> u in d.keys[..k]
      invariant forall u :: u in entries ==> Stackable(d.entries[u]) && entries[u] == Prototype(sqrt, metric, d.entries[u])
    {
      var u := d.keys[k];
      var embs := d.entries[u];
      if !Uniform(embs, |embs[0]|) {
        return Err(ShapeMismatch);
      }
      assert d.keys[..k + 1] == d.keys[..k] + [u];
      entries := entries[u := Prototype(sqrt, metric, embs)];
    }
    assert d.keys[..|d.keys|] == d.keys;
    assert AllStackable(d);
    assert forall u :: u in entries <==> u in d.entries by {
      forall u ensures u in entries <==> u in d.entries {
        if u in d.keys {
          var i :| 0 <= i < |d.keys| && d.keys[i] == u;
        }
      }
    }
    var p := PrototypesOf(sqrt, metric, d);
    assert forall u :: u in p.entries <==> u in entries;
    assert forall u :: u in entries ==> entries[u] == p.entries[u];
    assert entries == p.entries;
    r := Ok(Dict(d.keys, entries));
  }

  /**
   * Under cosine every prototype with a non-zero mean has norm one; under
   * the Euclidean metric each prototype is the plain mean.
   */
  lemma PrototypesNormalisedOnlyUnderCosine(sqrt: real -> real, metric: string, d: Dict<seq<Vec>>, u: UserId)
    requires IsSqrt(sqrt) && AllStackable(d) && u in d.entries
    ensures var p := PrototypesOf(sqrt, metric, d).entries[u];
      (metric == Cosine && !IsZero(Mean(d.entries[u])) ==> Norm(sqrt, p) == 1.0) &&
      (metric != Cosine ==> p == Mean(d.entries[u]))
  {
    if metric == Cosine && !IsZero(Mean(d.entries[u])) {
      L2NormalizeUnit(sqrt, Mean(d.entries[u]));
    }
  }

  // ----------------------------------------------------------------------
  // The scan of `recognize`
  // ----------------------------------------------------------------------

  /**
   * The first position holding the smallest value: the index kept by a
   * left-to-right scan that replaces its candidate only on a strictly
   * smaller value.
   */
  function FirstArgmin(s: seq<real>): (i: nat)
    requires |s| > 0
    ensures i < |s|
    ensures forall j :: 0 <= j < |s| ==> s[i] <= s[j]
    ensures forall j :: 0 <= j < i ==> s[i] < s[j]
  {
    if |s| == 1 then 0
    else
      var front := s[..|s| - 1];
      var k := FirstArgmin(front);
      assert forall j :: 0 <= j < |front| ==> front[j] == s[j];
      if s[|s| - 1] < s[k] then |s| - 1 else k
  }

  /** Extending a scan by one value moves its first minimum only on a strictly smaller value. */
  lemma FirstArgminStep(s: seq<real>, k: nat)
    requires 0 < k < |s|
    ensures FirstArgmin(s[..k + 1]) ==
      if s[k] < s[FirstArgmin(s[..k])] then k else FirstArgmin(s[..k])
  {
    assert s[..k + 1][..k] == s[..k];
  }

  /** The first-minimum position is the only one that is minimal and strictly below all earlier values. */
  lemma FirstArgminUnique(s: seq<real>, i: nat)
    requires i < |s|
    requires forall j :: 0 <= j < |s| ==> s[i] <= s[j]
    requires forall j :: 0 <= j < i ==> s[i] < s[j]
    ensures FirstArgmin(s) == i
  {
  }

  /** The smallest value, or None (infinity) for no values. */
  function MinOf(s: seq<real>): (m: Option<real>)
    ensures m.None? <==> |s| == 0
    ensures m.Some? ==> forall j :: 0 <= j < |s| ==> m.value <= s[j]
    ensures m.Some? ==> exists j :: 0 <= j < |s| && m.value == s[j]
  {
    if |s| == 0 then None else Some(s[FirstArgmin(s)])
  }

  /** Extending a scan by one value replaces its minimum only on a strictly smaller value. */
  lemma MinOfStep(s: seq<real>, k: nat)
    requires k < |s|
    ensures MinOf(s[..k + 1]) ==
      if MinOf(s[..k]).None? || s[k] < MinOf(s[..k]).value then Some(s[k]) else MinOf(s[..k])
  {
    assert s[..k + 1][..k] == s[..k];
  }

  /** `compare_embeddings(query_emb, db_emb_cmp)`: the distance to one stored embedding, prepared for the metric. */
  function SampleDistance(sqrt: real -> real, metric: string, q: Vec, e: Vec): real
    requires IsSqrt(sqrt) && |e| == |q|
  {
    Compare(sqrt, metric, q, Prepare(sqrt, metric, e))
  }

  /** The distances from `q` to a user's stored embeddings. */
  function SampleDistances(sqrt: real -> real, metric: string, q: Vec, embs: seq<Vec>): (ds: seq<real>)
    requires IsSqrt(sqrt) && forall i :: 0 <= i < |embs| ==> |embs[i]| == |q|
    ensures |ds| == |embs|
    ensures forall i :: 0 <= i < |embs| ==> ds[i] == SampleDistance(sqrt, metric, q, embs[i])
  {
    if |embs| == 0 then []
    else [SampleDistance(sqrt, metric, q, embs[0])] + SampleDistances(sqrt, metric, q, embs[1..])
  }

  /**
   * The inner loop of the scan: `d_min`, the smallest distance from `q` to
   * a user's stored embeddings, or None (infinity) when there are none.
   */
  method NearestSample(sqrt: real -> real, metric: string, q: Vec, embs: seq<Vec>) returns (dMin: Option<real>)
    requires IsSqrt(sqrt) && forall i :: 0 <= i < |embs| ==> |embs[i]| == |q|
    ensures dMin == MinOf(SampleDistances(sqrt, metric, q, embs))
  {
    ghost var ds := SampleDistances(sqrt, metric, q, embs);
    dMin := None;
    for k := 0 to |embs|
      invariant dMin == MinOf(ds[..k])
    {
      var d := SampleDistance(sqrt, metric, q, embs[k]);
      MinOfStep(ds, k);
      if dMin.None? || d < dMin.value {
        dMin := Some(d);
      }
    }
    assert ds[..|embs|] == ds;
  }

  /** `d_use = min(d_proto, d_min)`: the better of the prototype distance and the nearest sample. */
  function UserScore(dProto: real, dMin: Option<real>): (s: real)
    ensures s <= dProto && (dMin.Some? ==> s <= dMin.value)
    ensures s == dProto || dMin == Some(s)
  {
    if dMin.Some? && dMin.value < dProto then dMin.value else dProto
  }

  /**
   * The stored data can be compared with a query of length `n`: every
   * prototype key has a user list, and all prototypes and stored
   * embeddings have length `n`.
   */
  ghost predicate Matchable(g: Dict<seq<Vec>>, p: Dict<Vec>, n: nat) {
    p.Valid() &&
    forall u :: u in p.entries ==>
      u in g.entries && |p.entries[u]| == n &&
      forall i :: 0 <= i < |g.entries[u]| ==> |g.entries[u][i]| == n
  }

  /** The score of the user at position `i` of the prototype map. */
  function ScoreAt(sqrt: real -> real, metric: string, q: Vec, g: Dict<seq<Vec>>, p: Dict<Vec>, i: nat): real
    requires IsSqrt(sqrt) && Matchable(g, p, |q|) && i < |p.keys|
  {
    var u := p.keys[i];
    UserScore(Compare(sqrt, metric, q, p.entries[u]), MinOf(SampleDistances(sqrt, metric, q, g.entries[u])))
  }

  /** The score of each user, in the prototype map's order. */
  function Scores(sqrt: real -> real, metric: string, q: Vec, g: Dict<seq<Vec>>, p: Dict<Vec>): (s: seq<real>)
    requires IsSqrt(sqrt) && Matchable(g, p, |q|)
    ensures |s| == |p.keys|
    ensures forall i :: 0 <= i < |p.keys| ==> s[i] == ScoreAt(sqrt, metric, q, g, p, i)
  {
    seq(|p.keys|, i requires 0 <= i < |p.keys| => ScoreAt(sqrt, metric, q, g, p, i))
  }

  /**
   * The outer loop of the scan: visits the users in the prototype map's
   * order and keeps the first one whose score is strictly below every
   * earlier best (the best score starts at infinity, here None).
   */
  method BestMatch(sqrt: real -> real, metric: string, q: Vec, g: Dict<seq<Vec>>, p: Dict<Vec>)
    returns (bestUser: Option<UserId>, bestScore: Option<real>)
    requires IsSqrt(sqrt) && Matchable(g, p, |q|)
    ensures |p.keys| == 0 ==> bestUser.None? && bestScore.None?
    ensures |p.keys| > 0 ==>
      var s := Scores(sqrt, metric, q, g, p);
      bestUser == Some(p.keys[FirstArgmin(s)]) && bestScore == Some(s[FirstArgmin(s)])
  {
    ghost var s := Scores(sqrt, metric, q, g, p);
    bestUser, bestScore := None, None;
    for k := 0 to |p.keys|
      invariant k == 0 ==> bestUser.None? && bestScore.None?
      invariant k > 0 ==> bestUser == Some(p.keys[FirstArgmin(s[..k])]) && bestScore == Some(s[FirstArgmin(s[..k])])
    {
      var u := p.keys[k];
      var dProto := Compare(sqrt, metric, q, p.entries[u]);
      var dMin := NearestSample(sqrt, metric, q, g.entries[u]);
      var dUse := UserScore(dProto, dMin);
      assert dUse == s[k];
      if k > 0 {
        FirstArgminStep(s, k);
      }
      if bestScore.None? || dUse < bestScore.value {
        bestScore := Some(dUse);
        bestUser := Some(u);
      }
    }
    assert s[..|p.keys|] == s;
  }

  /**
   * The decision taken from the scores of users `keys`: the first user with
   * the smallest score when that score is strictly below the threshold,
   * otherwise nobody.
   */
  function Pick(keys: seq<UserId>, s: seq<real>, threshold: real): Option<UserId>
    requires |keys| == |s| > 0
  {
    var i := FirstArgmin(s);
    if s[i] < threshold then Some(keys[i]) else None
  }

  /**
   * A user is picked exactly when it is the first user with the smallest
   * score and that score is strictly below the threshold; nobody is picked
   * exactly when every score is at or above the threshold.
   */
  lemma PickSpec(keys: seq<UserId>, s: seq<real>, threshold: real, u: UserId)
    requires |keys| == |s| > 0
    ensures Pick(keys, s, threshold) == Some(u) <==>
      exists i :: 0 <= i < |s| && keys[i] == u && s[i] < threshold &&
        (forall j :: 0 <= j < |s| ==> s[i] <= s[j]) &&
        (forall j :: 0 <= j < i ==> s[i] < s[j])
    ensures Pick(keys, s, threshold).None? <==> forall j :: 0 <= j < |s| ==> threshold <= s[j]
  {
    if exists i :: 0 <= i < |s| && keys[i] == u && s[i] < threshold &&
        (forall j :: 0 <= j < |s| ==> s[i] <= s[j]) && (forall j :: 0 <= j < i ==> s[i] < s[j]) {
      var i :| 0 <= i < |s| && keys[i] == u && s[i] < threshold &&
        (forall j :: 0 <= j < |s| ==> s[i] <= s[j]) && (forall j :: 0 <= j < i ==> s[i] < s[j]);
      FirstArgminUnique(s, i);
    }
  }

  /** The decision of `recognize` on loaded data with at least one user. */
  function Decide(sqrt: real -> real, metric: string, threshold: real, q: Vec, g: Dict<seq<Vec>>, p: Dict<Vec>): Option<UserId>
    requires IsSqrt(sqrt) && Matchable(g, p, |q|) && |p.keys| > 0
  {
    Pick(p.keys, Scores(sqrt, metric, q, g, p), threshold)
  }

  /** No user scores below zero: every distance is non-negative. */
  lemma ScoresNonNegative(sqrt: real -> real, metric: string, q: Vec, g: Dict<seq<Vec>>, p: Dict<Vec>)
    requires IsSqrt(sqrt) && Matchable(g, p, |q|)
    ensures forall i :: 0 <= i < |p.keys| ==> 0.0 <= Scores(sqrt, metric, q, g, p)[i]
  {
    forall i | 0 <= i < |p.keys|
      ensures 0.0 <= ScoreAt(sqrt, metric, q, g, p, i)
    {
      var u := p.keys[i];
      var ds := SampleDistances(sqrt, metric, q, g.entries[u]);
      var m := MinOf(ds);
      if m.Some? {
        var j :| 0 <= j < |ds| && m.value == ds[j];
        assert 0.0 <= ds[j];
      }
    }
  }

  /**
   * A query equal to a stored embedding is recognised at any positive
   * threshold (under cosine, a non-zero one): the prepared query is at
   * distance 0 from that sample, so the accepted user scores 0.
   */
  lemma EnrolledAccepted(sqrt: real -> real, metric: string, threshold: real, query: Vec,
                         g: Dict<seq<Vec>>, p: Dict<Vec>, i: nat, k: nat)
    requires IsSqrt(sqrt) && Matchable(g, p, |query|) && i < |p.keys|
    requires p.keys[i] in p.entries && p.keys[i] in g.entries
    requires k < |g.entries[p.keys[i]]| && g.entries[p.keys[i]][k] == query
    requires metric == Cosine ==> !IsZero(query)
    requires 0.0 < threshold
    ensures var q := Prepare(sqrt, metric, query);
      var r := Decide(sqrt, metric, threshold, q, g, p);
      r.Some? && exists j :: 0 <= j < |p.keys| && p.keys[j] == r.value && Scores(sqrt, metric, q, g, p)[j] == 0.0
  {
    var q := Prepare(sqrt, metric, query);
    var s := Scores(sqrt, metric, q, g, p);
    var u := p.keys[i];
    var embs := g.entries[u];
    assert |q| == |query| && u in p.entries;
    assert forall e :: 0 <= e < |embs| ==> |embs[e]| == |q|;
    if metric == Cosine {
      L2NormalizeZeroIff(sqrt, query);
      CosineSelf(sqrt, q);
    } else {
      EuclideanZeroIff(sqrt, metric, q, q);
    }
    assert SampleDistances(sqrt, metric, q, embs)[k] == 0.0;
    assert s[i] <= 0.0;
    ScoresNonNegative(sqrt, metric, q, g, p);
    var j := FirstArgmin(s);
    assert s[j] == 0.0;
  }

  /** Under cosine, normalising the inputs first does not change the distance. */
  lemma CosineOfNormalised(sqrt: real -> real, a: Vec, b: Vec)
    requires IsSqrt(sqrt) && |a| == |b|
    ensures Compare(sqrt, Cosine, L2Normalize(sqrt, a), L2Normalize(sqrt, b)) == Compare(sqrt, Cosine, a, b)
  {
    L2NormalizeIdempotent(sqrt, a);
    L2NormalizeIdempotent(sqrt, b);
  }

  /**
   * Under cosine, a user enrolled with one non-zero embedding does not
   * accept its opposite at any threshold up to 2: the query scores 2
   * against both the prototype and the sample.
   */
  lemma OppositeRejected(sqrt: real -> real, threshold: real, u: UserId, v: Vec)
    requires IsSqrt(sqrt) && !IsZero(v) && threshold <= 2.0
    ensures var g := Dict([u], map[u := [v]]);
      AllStackable(g) &&
      var p := PrototypesOf(sqrt, Cosine, g);
      Matchable(g, p, |v|) &&
      Decide(sqrt, Cosine, threshold, Prepare(sqrt, Cosine, Neg(v)), g, p) == None
  {
    var g := Dict([u], map[u := [v]]);
    PrototypeOfCopies(sqrt, Cosine, [v], v);
    var p := PrototypesOf(sqrt, Cosine, g);
    assert p.entries[u] == L2Normalize(sqrt, v);
    var q := Prepare(sqrt, Cosine, Neg(v));
    CosineOpposite(sqrt, v);
    CompareSymmetric(sqrt, Cosine, v, Neg(v));
    CosineOfNormalised(sqrt, Neg(v), v);
    var d := Compare(sqrt, Cosine, q, L2Normalize(sqrt, v));
    assert d == 2.0;
    assert SampleDistances(sqrt, Cosine, q, [v]) == [d];
    assert MinOf([d]) == Some(d);
    var s := Scores(sqrt, Cosine, q, g, p);
    assert s[0] == 2.0;
  }

  /** Every stored embedding has length `n`. */
  predicate SameDimension(g: Dict<seq<Vec>>, n: nat) {
    forall u :: u in g.entries ==> forall i :: 0 <= i < |g.entries[u]| ==> |g.entries[u][i]| == n
  }

  /** The state `_load_embeddings_from_db` leaves: prototypes computed from the user map. */
  ghost predicate Consistent(sqrt: real -> real, metric: string, g: Dict<seq<Vec>>, p: Dict<Vec>) {
    IsSqrt(sqrt) && g.Valid() && AllStackable(g) && p == PrototypesOf(sqrt, metric, g)
  }

  /** On loaded data, the query can be compared exactly when its length matches the stored embeddings. */
  lemma MatchableIffSameDimension(sqrt: real -> real, metric: string, g: Dict<seq<Vec>>, p: Dict<Vec>, n: nat)
    requires Consistent(sqrt, metric, g, p)
    ensures Matchable(g, p, n) <==> SameDimension(g, n)
  {
    if SameDimension(g, n) {
      forall u | u in p.entries ensures |p.entries[u]| == n {
        assert |g.entries[u][0]| == n;
      }
    }
    if Matchable(g, p, n) {
      forall u | u in g.entries
        ensures forall i :: 0 <= i < |g.entries[u]| ==> |g.entries[u][i]| == n
      {
        assert u in p.entries;
      }
    }
  }

  // ----------------------------------------------------------------------
  // The recognizer object
  // ----------------------------------------------------------------------

  /**
   * `FaceRecognizer` with its two cached maps; None until the first load.
   * The square root used by `np.linalg.norm` is a constructor argument.
   */
  class Recognizer {
    const sqrt: real -> real
    const threshold: real
    const metric: string
    var userEmbeddings: Option<Dict<seq<Vec>>>
    var userPrototypes: Option<Dict<Vec>>

    ghost predicate Valid()
      reads this
    {
      IsSqrt(sqrt) &&
      (userEmbeddings.None? <==> userPrototypes.None?) &&
      (userEmbeddings.Some? ==> Consistent(sqrt, metric, userEmbeddings.value, userPrototypes.value))
    }

    /** `FaceRecognizer(threshold=0.45, metric="cosine")`: nothing loaded yet. */
    constructor (sqrt: real -> real, threshold: real := DefaultThreshold, metric: string := Cosine)
      requires IsSqrt(sqrt)
      ensures Valid()
      ensures this.sqrt == sqrt && this.threshold == threshold && this.metric == metric
      ensures userEmbeddings.None? && userPrototypes.None?
    {
      this.sqrt := sqrt;
      this.threshold := threshold;
      this.metric := metric;
      userEmbeddings := None;
      userPrototypes := None;
    }

    /** Loading from `rows` now would fail: a real load happens and some user's embeddings cannot be stacked. */
    ghost predicate LoadFails(rows: seq<Row>, forceReload: bool)
      reads this
    {
      !(userEmbeddings.Some? && !forceReload) && |rows| > 0 && !AllStackable(Group(rows))
    }

    /**
     * The state a load from `rows` leaves: nothing changes when a map is
     * cached and no reload is forced; an empty result caches two empty
     * maps; otherwise the user map and its prototypes, unless a user's
     * embeddings cannot be stacked, in which case nothing changes.
     */
    twostate predicate Loaded(rows: seq<Row>, forceReload: bool)
      reads this
    {
      IsSqrt(sqrt) &&
      if (old(userEmbeddings).Some? && !forceReload) || (|rows| > 0 && !AllStackable(Group(rows))) then
        userEmbeddings == old(userEmbeddings) && userPrototypes == old(userPrototypes)
      else if |rows| == 0 then
        userEmbeddings == Some(Dict([], map[])) && userPrototypes == Some(Dict([], map[]))
      else
        userEmbeddings == Some(Group(rows)) && userPrototypes == Some(PrototypesOf(sqrt, metric, Group(rows)))
    }

    /** `_load_embeddings_from_db(force_reload)`, with the database rows as input. */
    method Load(rows: seq<Row>, forceReload: bool) returns (r: Result<()>)
      requires Valid()
      modifies this
      ensures Valid()
      ensures Loaded(rows, forceReload)
      ensures r.Err? <==> old(LoadFails(rows, forceReload))
      ensures r.Err? ==> r.error == ShapeMismatch
      ensures r.Ok? ==> userEmbeddings.Some? && userPrototypes.Some?
    {
      if userEmbeddings.Some? && !forceReload {
        return Ok(());
      }
      if |rows| == 0 {
        userEmbeddings := Some(Dict([], map[]));
        userPrototypes := Some(Dict([], map[]));
        return Ok(());
      }
      var userMap := GroupRows(rows);
      var prototypes := BuildPrototypes(sqrt, metric, userMap);
      if prototypes.Err? {
        return Err(prototypes.error);
      }
      userEmbeddings := Some(userMap);
      userPrototypes := Some(prototypes.value);
      r := Ok(());
    }

    /**
     * The matching part of `recognize` for the query embedding `query`:
     * load (without forcing), answer None when no user is enrolled, fail
     * when the stored embeddings do not have the query's length, otherwise
     * return the decision of the scan. The maps change only by the load.
     */
    method Recognize(query: Vec, rows: seq<Row>) returns (r: Result<Option<UserId>>)
      requires Valid()
      modifies this
      ensures Valid()
      ensures Loaded(rows, false)
      ensures old(LoadFails(rows, false)) ==> r == Err(ShapeMismatch)
      ensures !old(LoadFails(rows, false)) ==>
        userEmbeddings.Some? && userPrototypes.Some? &&
        var g, p := userEmbeddings.value, userPrototypes.value;
        if |p.keys| == 0 then r == Ok(None)
        else if !Matchable(g, p, |query|) then r == Err(ShapeMismatch)
        else r == Ok(Decide(sqrt, metric, threshold, Prepare(sqrt, metric, query), g, p))
    {
      var loaded := Load(rows, false);
      if loaded.Err? {
        return Err(loaded.error);
      }
      var g, p := userEmbeddings.value, userPrototypes.value;
      if |p.keys| == 0 {
        return Ok(None);
      }
      MatchableIffSameDimension(sqrt, metric, g, p, |query|);
      if !SameDimension(g, |query|) {
        return Err(ShapeMismatch);
      }
      var q := Prepare(sqrt, metric, query);
      var bestUser, bestScore := BestMatch(sqrt, metric, q, g, p);
      assert Decide(sqrt, metric, threshold, q, g, p) ==
        if bestScore.value < threshold then bestUser else None;
      if bestScore.Some? && bestScore.value < threshold {
        return Ok(bestUser);
      }
      r := Ok(None);
    }
  }
}
