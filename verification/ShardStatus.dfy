/** Names and contents of the per-shard status objects. */
module ShardStatus {
  import opened Prelude
  import PollerModel

  // ---------------------------------------------------------------- names

  function Digit(d: nat): char
    requires d < 10
  {
    ['0', '1', '2', '3', '4', '5', '6', '7', '8', '9'][d]
  }

  function Digits(n: nat): (r: string)
    ensures r != []
  {
    if n < 10 then [Digit(n)] else Digits(n / 10) + [Digit(n % 10)]
  }

  function Decimal(n: int): string {
    if n < 0 then "-" + Digits(-n) else Digits(n)
  }

  /** `shard-<decimal>.json`, with the window label suffixed for a windowed unit. */
  function StatusKey(shard: int, window: Option<string>): string {
    "shard-" + Decimal(shard) + (if window.None? then "" else "_" + window.value) + ".json"
  }

  predicate NameChar(c: char) {
    c == '-' || '0' <= c <= '9'
  }

  lemma {:induction false} DigitsAreNameChars(n: nat)
    ensures forall i :: 0 <= i < |Digits(n)| ==> '0' <= Digits(n)[i] <= '9'
  {
    if n >= 10 {
      DigitsAreNameChars(n / 10);
    }
  }

  lemma {:induction false} DigitsInjective(m: nat, n: nat)
    requires Digits(m) == Digits(n)
    ensures m == n
  {
    var a, b := Digits(m), Digits(n);
    assert a[|a| - 1] == b[|b| - 1];
    if m >= 10 && n >= 10 {
      assert a[..|a| - 1] == Digits(m / 10) && b[..|b| - 1] == Digits(n / 10);
      DigitsInjective(m / 10, n / 10);
    }
  }

  lemma DecimalInjective(m: int, n: int)
    requires Decimal(m) == Decimal(n)
    ensures m == n
  {
    assert Decimal(m)[0] == Decimal(n)[0];
    DigitsAreNameChars(if m < 0 then -m else m);
    DigitsAreNameChars(if n < 0 then -n else n);
    if m < 0 && n < 0 {
      assert Decimal(m)[1..] == Digits(-m) && Decimal(n)[1..] == Digits(-n);
      DigitsInjective(-m, -n);
    } else if m >= 0 && n >= 0 {
      DigitsInjective(m, n);
    }
  }

  lemma DecimalIsName(n: int)
    ensures forall i :: 0 <= i < |Decimal(n)| ==> NameChar(Decimal(n)[i])
  {
    DigitsAreNameChars(if n < 0 then -n else n);
  }

  /** A run of name characters ends at the first character that is not one. */
  lemma {:induction false} SplitName(a: string, b: string, x: string, y: string)
    requires a + x == b + y && x != [] && y != []
    requires forall i :: 0 <= i < |a| ==> NameChar(a[i])
    requires forall i :: 0 <= i < |b| ==> NameChar(b[i])
    requires !NameChar(x[0]) && !NameChar(y[0])
    ensures a == b && x == y
  {
    assert (a + x)[0] == (b + y)[0];
    if a != [] && b != [] {
      assert (a + x)[1..] == a[1..] + x && (b + y)[1..] == b[1..] + y;
      SplitName(a[1..], b[1..], x, y);
    } else if a == [] && b == [] {
      assert a + x == x && b + y == y;
    }
  }

  /** Distinct (shard, window) units never share a status object, nor take the name of the run's manifest or tail
      marker: the status keys the poller is handed are distinct. */
  lemma StatusKeyInjective(s1: int, w1: Option<string>, s2: int, w2: Option<string>)
    ensures StatusKey(s1, w1) == StatusKey(s2, w2) <==> s1 == s2 && w1 == w2
    ensures StatusKey(s1, w1) != "manifest.json" && StatusKey(s1, w1) != "tail.json"
  {
    var t1 := (if w1.None? then "" else "_" + w1.value) + ".json";
    var t2 := (if w2.None? then "" else "_" + w2.value) + ".json";
    assert StatusKey(s1, w1) == "shard-" + (Decimal(s1) + t1);
    assert StatusKey(s2, w2) == "shard-" + (Decimal(s2) + t2);
    assert StatusKey(s1, w1)[0] == 's';
    if StatusKey(s1, w1) == StatusKey(s2, w2) {
      assert Decimal(s1) + t1 == StatusKey(s1, w1)[6..] && Decimal(s2) + t2 == StatusKey(s2, w2)[6..];
      DecimalIsName(s1);
      DecimalIsName(s2);
      SplitName(Decimal(s1), Decimal(s2), t1, t2);
      DecimalInjective(s1, s2);
      assert t1[0] == t2[0];
      if w1.Some? && w2.Some? {
        assert t1[1..|t1| - 5] == w1.value && t2[1..|t2| - 5] == w2.value;
      }
    }
  }

  // ---------------------------------------------------------------- contents

  /** The part of a worker's response the outcome depends on; `error == None` stands for a falsy error. */
  datatype Response = Response(code: Option<int>, error: Option<string>)

  const BENIGN_ERRORS: set<string> := {"No granules found", "No data after filtering"}

  predicate Benign(error: Option<string>) {
    error.Some? && error.value in BENIGN_ERRORS
  }

  /** `build_shard_status`: the status the worker records. */
  function RecordedStatus(r: Response): string {
    if Benign(r.error) then "no_data"
    else if r.code == Some(200) && r.error.None? then "ok"
    else "failed"
  }

  /** `Run._shard_work`: whether the synchronous transport returns the result rather than raising. */
  predicate SyncReturns(r: Response) {
    if r.code == Some(200) && r.error.None? then true else Benign(r.error)
  }

  /** The two transports agree on which responses fail a shard. */
  lemma TransportsAgree(r: Response, attemptId: string)
    ensures var obj := PollerModel.StatusObject(RecordedStatus(r), attemptId, true);
            PollerModel.ObjectVerdict(obj) ==
              if SyncReturns(r) then PollerModel.Succeeded(obj) else PollerModel.WorkerFailed(obj)
  {
  }
}
