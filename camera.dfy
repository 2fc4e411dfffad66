/**
 * The capture counter of `interfaces/camera_interface.py`: the next
 * `face_count` is derived from the names of the files already captured,
 * each parsed with `re.search(r"face_(\d+)", name)`, and every saved face
 * is written as `face_{face_count}.jpg` before the counter moves on. The
 * directory listing is an input.
 */
module Camera {
  import opened Wrappers
  import Preprocessing

  const Prefix: string := "face_"

  const Extension: string := ".jpg"

  predicate IsDigit(c: char) {
    '0' <= c <= '9'
  }

  function DigitValue(c: char): nat
    requires IsDigit(c)
  {
    (c as int - '0' as int) as nat
  }

  function Digit(d: nat): (c: char)
    requires d < 10
    ensures IsDigit(c) && DigitValue(c) == d
  {
    ('0' as int + d) as char
  }

  predicate AllDigits(s: string) {
    forall i :: 0 <= i < |s| ==> IsDigit(s[i])
  }

  /** `int(...)` of a run of decimal digits. */
  function DigitsValue(s: string): nat
    requires AllDigits(s)
  {
    if |s| == 0 then 0 else DigitsValue(s[..|s| - 1]) * 10 + DigitValue(s[|s| - 1])
  }

  /** The pattern `face_\d` matches at position `i`. */
  predicate MatchAt(s: string, i: nat) {
    i + 5 < |s| && s[i] == 'f' && s[i + 1] == 'a' && s[i + 2] == 'c' && s[i + 3] == 'e' && s[i + 4] == '_' &&
    IsDigit(s[i + 5])
  }

  /** The leftmost position at or after `from` where the pattern matches. */
  function FirstMatch(s: string, from: nat): Option<nat>
    decreases |s| - from
  {
    if from + 5 >= |s| then None
    else if MatchAt(s, from) then Some(from)
    else FirstMatch(s, from + 1)
  }

  /** The search finds the leftmost match at or after `from`, and finds none only when there is none. */
  lemma {:induction false} FirstMatchSpec(s: string, from: nat)
    decreases |s| - from
    ensures var r := FirstMatch(s, from);
      (r.Some? ==> from <= r.value && MatchAt(s, r.value) && forall j :: from <= j < r.value ==> !MatchAt(s, j)) &&
      (r.None? ==> forall j :: from <= j ==> !MatchAt(s, j))
  {
    if from + 5 < |s| && !MatchAt(s, from) {
      FirstMatchSpec(s, from + 1);
    }
  }

  /** The end of the greedy `\d+` run that starts at `i`. */
  function DigitRunEnd(s: string, i: nat): (r: nat)
    requires i <= |s|
    decreases |s| - i
    ensures i <= r <= |s| && (forall k :: i <= k < r ==> IsDigit(s[k])) && (r == |s| || !IsDigit(s[r]))
  {
    if i < |s| && IsDigit(s[i]) then DigitRunEnd(s, i + 1) else i
  }

  /**
   * `m.group(1)` as an integer: the whole digit run after the leftmost
   * `face_` that is followed by a digit; nothing when no such `face_` occurs.
   */
  function ParseIndex(name: string): Option<nat> {
    match FirstMatch(name, 0)
    case None => None
    case Some(i) =>
      FirstMatchSpec(name, 0);
      var e := DigitRunEnd(name, i + 5);
      assert AllDigits(name[i + 5..e]);
      Some(DigitsValue(name[i + 5..e]))
  }

  /**
   * A name parses exactly when the pattern matches somewhere, and then the
   * parse reads the complete digit run of the leftmost match.
   */
  lemma ParseIndexSpec(name: string)
    ensures ParseIndex(name).None? <==> forall i: nat :: !MatchAt(name, i)
    ensures ParseIndex(name).Some? ==> exists i: nat ::
      (MatchAt(name, i) && (forall j :: 0 <= j < i ==> !MatchAt(name, j)) &&
       var e := DigitRunEnd(name, i + 5);
       (e == |name| || !IsDigit(name[e])) && ParseIndex(name).value == DigitsValue(name[i + 5..e]))
  {
    FirstMatchSpec(name, 0);
    if ParseIndex(name).Some? {
      var i := FirstMatch(name, 0).value;
      assert MatchAt(name, i);
    }
  }

  /** `str(n)`: decimal digits without leading zeros. */
  function NatToString(n: nat): (r: string)
    ensures |r| > 0 && AllDigits(r)
    ensures r[0] == '0' ==> n == 0
  {
    if n < 10 then [Digit(n)] else NatToString(n / 10) + [Digit(n % 10)]
  }

  /** `int` undoes `str`. */
  lemma {:induction false} NatToStringValue(n: nat)
    ensures DigitsValue(NatToString(n)) == n
  {
    if n >= 10 {
      NatToStringValue(n / 10);
      var r := NatToString(n);
      assert r[..|r| - 1] == NatToString(n / 10);
    }
  }

  /** The name under which a face is saved: `face_{face_count}.jpg`. */
  function FileName(count: nat): string {
    Prefix + NatToString(count) + Extension
  }

  lemma {:induction false} DigitRunEndIs(s: string, i: nat, j: nat)
    requires i <= j <= |s| && AllDigits(s[i..j]) && (j == |s| || !IsDigit(s[j]))
    decreases j - i
    ensures DigitRunEnd(s, i) == j
  {
    if i < j {
      assert IsDigit(s[i..j][0]);
      assert s[i + 1..j] == s[i..j][1..];
      DigitRunEndIs(s, i + 1, j);
    }
  }

  /** Round trip: the name of a saved face parses back to its counter. */
  lemma ParseFileName(count: nat)
    ensures ParseIndex(FileName(count)) == Some(count)
  {
    var ds := NatToString(count);
    var name := FileName(count);
    var k := |Prefix|;
    assert name[..k] == Prefix && name[k..k + |ds|] == ds;
    assert name[k + |ds|] == '.';
    assert MatchAt(name, 0);
    DigitRunEndIs(name, k, k + |ds|);
    NatToStringValue(count);
  }

  /** The parse of each name, in order. */
  function Indices(names: seq<string>): (r: seq<Option<nat>>)
    ensures |r| == |names|
  {
    if |names| == 0 then [] else Indices(names[..|names| - 1]) + [ParseIndex(names[|names| - 1])]
  }

  lemma {:induction false} IndicesAt(names: seq<string>, i: nat)
    requires i < |names|
    ensures Indices(names)[i] == ParseIndex(names[i])
  {
    var front := names[..|names| - 1];
    if i < |front| {
      IndicesAt(front, i);
    }
  }

  lemma {:induction false} IndicesAppend(a: seq<string>, b: seq<string>)
    ensures Indices(a + b) == Indices(a) + Indices(b)
  {
    if |b| == 0 {
      assert a + b == a;
    } else {
      IndicesAppend(a, b[..|b| - 1]);
      assert (a + b)[..|a + b| - 1] == a + b[..|b| - 1];
    }
  }

  /** The largest index present, or 0 when there is none. */
  function MaxOf(ps: seq<Option<nat>>): nat {
    if |ps| == 0 then 0
    else
      var m := MaxOf(ps[..|ps| - 1]);
      match ps[|ps| - 1]
      case Some(idx) => if idx > m then idx else m
      case None => m
  }

  lemma {:induction false} MaxOfSpec(ps: seq<Option<nat>>)
    ensures forall i :: 0 <= i < |ps| && ps[i].Some? ==> ps[i].value <= MaxOf(ps)
    ensures MaxOf(ps) == 0 || exists i :: 0 <= i < |ps| && ps[i] == Some(MaxOf(ps))
  {
    if |ps| > 0 {
      var front := ps[..|ps| - 1];
      MaxOfSpec(front);
      assert forall i :: 0 <= i < |front| ==> ps[i] == front[i];
      if MaxOf(ps) != 0 && MaxOf(ps) == MaxOf(front) {
        var i :| 0 <= i < |front| && front[i] == Some(MaxOf(front));
        assert ps[i] == Some(MaxOf(ps));
      }
    }
  }

  /** `max_idx` after the scan: the largest index parsed from the names, or 0 when none matches. */
  function MaxIndex(names: seq<string>): nat {
    MaxOf(Indices(names))
  }

  /** The maximum bounds every parsed index and is either 0 or one of them. */
  lemma MaxIndexSpec(names: seq<string>)
    ensures forall i :: 0 <= i < |names| && ParseIndex(names[i]).Some? ==> ParseIndex(names[i]).value <= MaxIndex(names)
    ensures MaxIndex(names) == 0 || exists i :: 0 <= i < |names| && ParseIndex(names[i]) == Some(MaxIndex(names))
  {
    MaxOfSpec(Indices(names));
    forall i | 0 <= i < |names| ensures Indices(names)[i] == ParseIndex(names[i]) {
      IndicesAt(names, i);
    }
  }

  /** Names without a match play no part. */
  lemma MaxIndexIgnores(names: seq<string>, name: string)
    requires ParseIndex(name).None?
    ensures MaxIndex(names + [name]) == MaxIndex(names)
  {
    assert (names + [name])[..|names|] == names;
  }

  /**
   * Lines 72-81: one pass over the existing names, keeping the largest index
   * seen; the counter starts just above it, so above every parsed index.
   */
  method NextFaceCount(names: seq<string>) returns (faceCount: nat)
    ensures faceCount == MaxIndex(names) + 1
    ensures forall i :: 0 <= i < |names| && ParseIndex(names[i]).Some? ==> ParseIndex(names[i]).value < faceCount
    ensures faceCount == 1 || exists i :: 0 <= i < |names| && ParseIndex(names[i]) == Some(faceCount - 1)
  {
    var maxIdx := 0;
    for k := 0 to |names|
      invariant maxIdx == MaxOf(Indices(names[..k]))
    {
      var m := ParseIndex(names[k]);
      if m.Some? {
        var idx := m.value;
        if idx > maxIdx {
          maxIdx := idx;
        }
      }
      assert names[..k + 1][..k] == names[..k];
    }
    assert names[..|names|] == names;
    faceCount := maxIdx + 1;
    MaxIndexSpec(names);
  }

  /** The names written by capturing `n` faces starting at counter `count`. */
  function Written(count: nat, n: nat): (r: seq<string>)
    ensures |r| == n
  {
    if n == 0 then [] else Written(count, n - 1) + [FileName(count + n - 1)]
  }

  /**
   * Lines 122-132 for one press of 'c': every detected face is cropped (a
   * crop is never None) and saved under the current counter, which then
   * moves on by one.
   */
  method CaptureFaces(faceCount: nat, boxes: seq<Preprocessing.Box>) returns (names: seq<string>, next: nat)
    ensures next == faceCount + |boxes|
    ensures names == Written(faceCount, |boxes|)
    ensures forall k :: 0 <= k < |names| ==> ParseIndex(names[k]) == Some(faceCount + k)
  {
    names := [];
    next := faceCount;
    for k := 0 to |boxes|
      invariant next == faceCount + k
      invariant names == Written(faceCount, k)
    {
      names := names + [FileName(next)];
      next := next + 1;
    }
    WrittenParses(faceCount, |boxes|);
  }

  /** Every name written parses back to the counter it was saved under. */
  lemma {:induction false} WrittenParses(count: nat, n: nat)
    ensures forall k :: 0 <= k < n ==> ParseIndex(Written(count, n)[k]) == Some(count + k)
  {
    if n > 0 {
      WrittenParses(count, n - 1);
      ParseFileName(count + n - 1);
    }
  }

  /**
   * After saving, deriving the counter again from the directory gives the
   * counter the capture loop ended with: the saved names carry exactly the
   * indices from the old counter on.
   */
  lemma RecountAfterCapture(existing: seq<string>, n: nat)
    ensures MaxIndex(existing + Written(MaxIndex(existing) + 1, n)) + 1 == MaxIndex(existing) + 1 + n
  {
    var c := MaxIndex(existing) + 1;
    WrittenParses(c, n);
    MaxIndexConsecutive(existing, Written(c, n));
  }

  /** Appending names that parse to the indices just above the maximum raises it by their number. */
  lemma MaxIndexConsecutive(existing: seq<string>, ws: seq<string>)
    requires forall k :: 0 <= k < |ws| ==> ParseIndex(ws[k]) == Some(MaxIndex(existing) + 1 + k)
    ensures MaxIndex(existing + ws) == MaxIndex(existing) + |ws|
  {
    forall k | 0 <= k < |ws| ensures Indices(ws)[k] == Some(MaxIndex(existing) + 1 + k) {
      IndicesAt(ws, k);
    }
    IndicesAppend(existing, ws);
    MaxOfConsecutive(Indices(existing), Indices(ws));
  }

  /** Appending the indices just above the maximum raises the maximum by their number. */
  lemma {:induction false} MaxOfConsecutive(ps: seq<Option<nat>>, qs: seq<Option<nat>>)
    requires forall k :: 0 <= k < |qs| ==> qs[k] == Some(MaxOf(ps) + 1 + k)
    ensures MaxOf(ps + qs) == MaxOf(ps) + |qs|
  {
    if |qs| == 0 {
      assert ps + qs == ps;
    } else {
      var front := qs[..|qs| - 1];
      MaxOfConsecutive(ps, front);
      var all := ps + qs;
      assert all[..|all| - 1] == ps + front;
    }
  }
}
