/** The self-delimiting encoding of variable-length cells, and the combined digest over a leaf's arrays. */
module Encoding {
  import opened Prelude
  import opened Bytes
  import opened Sorting

  // ---------------------------------------------------------------- length prefixes

  function LeBytes(n: nat, width: nat): (r: seq<byte>)
    ensures |r| == width
  {
    if width == 0 then [] else [n % 256] + LeBytes(n / 256, width - 1)
  }

  function LeValue(s: seq<byte>): nat {
    if s == [] then 0 else s[0] + 256 * LeValue(s[1..])
  }

  /** 256 to the `width`. */
  function Limit(width: nat): nat {
    if width == 0 then 1 else 256 * Limit(width - 1)
  }

  lemma {:induction false} LeRoundTrip(n: nat, width: nat)
    ensures n < Limit(width) ==> LeValue(LeBytes(n, width)) == n
  {
    if width > 0 {
      LeRoundTrip(n / 256, width - 1);
      assert LeBytes(n, width)[1..] == LeBytes(n / 256, width - 1);
    }
  }

  lemma {:induction false} LeOnto(s: seq<byte>)
    ensures LeValue(s) < Limit(|s|) && LeBytes(LeValue(s), |s|) == s
  {
    if s != [] {
      LeOnto(s[1..]);
      assert LeValue(s) % 256 == s[0] && LeValue(s) / 256 == LeValue(s[1..]);
      assert s == [s[0]] + s[1..];
    }
  }

  const VLEN_LENGTH_PREFIX: nat := 8

  // ---------------------------------------------------------------- cells

  /** One decoded cell of an object-dtype array. */
  datatype Element =
    | Unwritten
    | Raw(bytes: seq<byte>)
    | Text(utf8: seq<byte>)
    | Values(bigEndian: bool, items: seq<seq<byte>>)
    | Unsupported

  function ElementBytes(e: Element): Option<seq<byte>> {
    match e
    case Unwritten => Some([])
    case Raw(bytes) => Some(bytes)
    case Text(utf8) => Some(utf8)
    case Values(big, items) =>
      Some(Flatten(seq(|items|, k requires 0 <= k < |items| => if big then Reversed(items[k]) else items[k])))
    case Unsupported => None
  }

  function Frame(payload: seq<byte>): seq<byte> {
    LeBytes(|payload|, VLEN_LENGTH_PREFIX) + payload
  }

  function Encode(payloads: seq<seq<byte>>): seq<byte> {
    if payloads == [] then [] else Frame(payloads[0]) + Encode(payloads[1..])
  }

  /** The reader of the encoding. */
  function Parse(s: seq<byte>): Option<seq<seq<byte>>> {
    if s == [] then Some([])
    else if |s| < VLEN_LENGTH_PREFIX then None
    else
      var n, rest := LeValue(s[..VLEN_LENGTH_PREFIX]), s[VLEN_LENGTH_PREFIX..];
      if |rest| < n then None
      else
        var tail := Parse(rest[n..]);
        if tail.None? then None else Some([rest[..n]] + tail.value)
  }

  predicate Framable(payloads: seq<seq<byte>>) {
    forall i :: 0 <= i < |payloads| ==> |payloads[i]| < Limit(VLEN_LENGTH_PREFIX)
  }

  lemma {:induction false} ParseInvertsEncode(payloads: seq<seq<byte>>)
    requires Framable(payloads)
    ensures Parse(Encode(payloads)) == Some(payloads)
  {
    hide LeBytes, LeValue, Limit;
    if payloads != [] {
      var p, s := payloads[0], Encode(payloads);
      ParseInvertsEncode(payloads[1..]);
      LeRoundTrip(|p|, VLEN_LENGTH_PREFIX);
      assert s[..VLEN_LENGTH_PREFIX] == LeBytes(|p|, VLEN_LENGTH_PREFIX);
      var rest := s[VLEN_LENGTH_PREFIX..];
      assert rest == p + Encode(payloads[1..]);
      assert rest[..|p|] == p && rest[|p|..] == Encode(payloads[1..]);
      assert payloads == [p] + payloads[1..];
    }
  }

  /** The reader accepts nothing but encodings. */
  lemma {:induction false} EncodeInvertsParse(s: seq<byte>)
    requires Parse(s).Some?
    ensures Framable(Parse(s).value) && Encode(Parse(s).value) == s
    decreases |s|
  {
    if s != [] {
      var prefix, rest := s[..VLEN_LENGTH_PREFIX], s[VLEN_LENGTH_PREFIX..];
      var n := LeValue(prefix);
      EncodeInvertsParse(rest[n..]);
      LeOnto(prefix);
      var p, tail := rest[..n], Parse(rest[n..]).value;
      assert Parse(s).value == [p] + tail;
      hide LeValue, LeBytes, Parse, Limit;
      assert ([p] + tail)[1..] == tail;
      assert Encode([p] + tail) == (prefix + p) + rest[n..];
      assert s == (prefix + p) + rest[n..];
    }
  }

  /** Cell boundaries cannot be moved without changing the bytes. */
  lemma EncodeInjective(a: seq<seq<byte>>, b: seq<seq<byte>>)
    requires Framable(a) && Framable(b)
    ensures Encode(a) == Encode(b) <==> a == b
  {
    ParseInvertsEncode(a);
    ParseInvertsEncode(b);
  }

  /** The payloads of a run of cells that all have a byte recipe. */
  function Payloads(cells: seq<Element>): Option<seq<seq<byte>>> {
    if cells == [] then Some([])
    else
      var init, last := Payloads(cells[..|cells| - 1]), ElementBytes(cells[|cells| - 1]);
      if init.None? || last.None? then None else Some(init.value + [last.value])
  }

  lemma {:induction false} EncodeSnoc(payloads: seq<seq<byte>>, p: seq<byte>)
    ensures Encode(payloads + [p]) == Encode(payloads) + Frame(p)
  {
    if payloads == [] {
      assert payloads + [p] == [p] && [p][1..] == [];
      assert Encode([]) == [];
    } else {
      EncodeSnoc(payloads[1..], p);
      assert (payloads + [p])[1..] == payloads[1..] + [p];
    }
  }

  lemma {:induction false} PayloadsOfPrefix(cells: seq<Element>, n: nat)
    requires n <= |cells| && Payloads(cells).Some?
    ensures Payloads(cells[..n]).Some? && Payloads(cells[..n]).value <= Payloads(cells).value
    ensures |Payloads(cells).value| == |cells|
  {
    if cells == [] {
      assert cells[..n] == cells;
    } else {
      var init := cells[..|cells| - 1];
      PayloadsOfPrefix(init, if n == |cells| then n - 1 else n);
      if n == |cells| {
        assert cells[..n] == cells;
      } else {
        assert init[..n] == cells[..n];
      }
    }
  }

  /** `hash_array` on an object-dtype array: the bytes digested, or nothing when a cell has no recipe or a payload
      does not fit its length prefix (either raises). */
  method HashVlen(cells: seq<Element>) returns (digest: Option<seq<byte>>)
    ensures digest ==
              if Payloads(cells).Some? && Framable(Payloads(cells).value) then Some(Encode(Payloads(cells).value))
              else None
  {
    var fed: seq<byte> := [];
    for n := 0 to |cells|
      invariant Payloads(cells[..n]).Some? && Framable(Payloads(cells[..n]).value)
      invariant fed == Encode(Payloads(cells[..n]).value)
    {
      var payload := ElementBytes(cells[n]);
      var upto := cells[..n + 1];
      assert upto[..|upto| - 1] == cells[..n];
      if payload.None? || |payload.value| >= Limit(VLEN_LENGTH_PREFIX) {
        if Payloads(cells).Some? {
          PayloadsOfPrefix(cells, n + 1);
          assert Payloads(upto).value[|Payloads(upto).value| - 1] == payload.value;
        }
        return None;
      }
      EncodeSnoc(Payloads(cells[..n]).value, payload.value);
      fed := fed + LeBytes(|payload.value|, VLEN_LENGTH_PREFIX) + payload.value;
      assert fed == Encode(Payloads(upto).value);
    }
    assert cells[..|cells|] == cells;
    return Some(fed);
  }

  // ---------------------------------------------------------------- the combined digest

  /** Lexical order on strings. */
  predicate Le(a: string, b: string) {
    if a == [] then true
    else if b == [] then false
    else a[0] < b[0] || (a[0] == b[0] && Le(a[1..], b[1..]))
  }

  lemma {:induction false} LeTotal(a: string, b: string)
    ensures Le(a, b) || Le(b, a)
    ensures Le(a, b) && Le(b, a) ==> a == b
  {
    if a != [] && b != [] {
      LeTotal(a[1..], b[1..]);
      assert a == [a[0]] + a[1..] && b == [b[0]] + b[1..];
    }
  }

  lemma {:induction false} LeTransitive(a: string, b: string, c: string)
    requires Le(a, b) && Le(b, c)
    ensures Le(a, c)
  {
    if a != [] && a[0] == b[0] && b[0] == c[0] {
      LeTransitive(a[1..], b[1..], c[1..]);
    }
  }

  lemma LeOrders()
    ensures Orders(Le)
  {
    forall a, b ensures Le(a, b) || Le(b, a) {
      LeTotal(a, b);
    }
    forall a, b, c | Le(a, b) && Le(b, c) ensures Le(a, c) {
      LeTransitive(a, b, c);
    }
  }

  /** A multiset has one ascending listing. */
  lemma {:induction false} AscendingUnique(a: seq<string>, b: seq<string>)
    requires Ascending(a, Le) && Ascending(b, Le) && multiset(a) == multiset(b)
    ensures a == b
  {
    hide Le;
    assert |a| == |multiset(a)| && |b| == |multiset(b)|;
    if a != [] {
      assert a[0] in multiset(b) && b[0] in multiset(a);
      LeTotal(a[0], b[0]);
      assert Le(a[0], a[0]) && Le(b[0], b[0]) by {
        LeTotal(a[0], a[0]);
        LeTotal(b[0], b[0]);
      }
      assert a[0] == b[0];
      assert a == [a[0]] + a[1..] && b == [b[0]] + b[1..];
      assert multiset(a[1..]) == multiset(a) - multiset{a[0]};
      assert multiset(b[1..]) == multiset(b) - multiset{b[0]};
      AscendingUnique(a[1..], b[1..]);
    }
  }

  function Join(lines: seq<string>): string {
    if lines == [] then "" else if |lines| == 1 then lines[0] else lines[0] + "\n" + Join(lines[1..])
  }

  /** The bytes `combined_hash` digests, from the per-array digests in enumeration order. */
  function CombinedPreimage(digests: seq<string>): string {
    Join(Sorted(digests, Le))
  }

  /** Hex digests are not empty and hold no newline. */
  predicate Digest(d: string) {
    d != [] && '\n' !in d
  }

  lemma {:induction false} FirstLine(a: string, b: string, x: string, y: string)
    requires a + x == b + y && '\n' !in a && '\n' !in b
    requires (x == [] || x[0] == '\n') && (y == [] || y[0] == '\n')
    ensures a == b && x == y
  {
    if a == [] && b == [] {
      assert a + x == x && b + y == y;
    } else {
      assert (a + x)[0] == (b + y)[0];
      if a != [] && b != [] {
        assert (a + x)[1..] == a[1..] + x && (b + y)[1..] == b[1..] + y;
        FirstLine(a[1..], b[1..], x, y);
      }
    }
  }

  function Rest(lines: seq<string>): string
    requires lines != []
  {
    if |lines| == 1 then "" else "\n" + Join(lines[1..])
  }

  lemma JoinParts(a: seq<string>)
    ensures a == [] ==> Join(a) == ""
    ensures a != [] ==>
              && Join(a) == a[0] + Rest(a)
              && (Rest(a) == "" <==> |a| == 1)
              && (Rest(a) != "" ==> Rest(a)[0] == '\n' && Rest(a)[1..] == Join(a[1..]))
  {
  }

  lemma {:induction false} JoinInjective(a: seq<string>, b: seq<string>)
    requires forall i :: 0 <= i < |a| ==> Digest(a[i])
    requires forall i :: 0 <= i < |b| ==> Digest(b[i])
    requires Join(a) == Join(b)
    ensures a == b
  {
    hide Join, Rest;
    JoinParts(a);
    JoinParts(b);
    if a != [] && b != [] {
      FirstLine(a[0], b[0], Rest(a), Rest(b));
      if |a| > 1 {
        JoinInjective(a[1..], b[1..]);
      }
      assert a == [a[0]] + a[1..] && b == [b[0]] + b[1..];
    }
  }

  /** The combined digest's preimage is determined by, and determines, the multiset of per-array digests: it is
      immune to enumeration order and to nothing else. */
  lemma CombinedExact(a: seq<string>, b: seq<string>)
    requires forall i :: 0 <= i < |a| ==> Digest(a[i])
    requires forall i :: 0 <= i < |b| ==> Digest(b[i])
    ensures CombinedPreimage(a) == CombinedPreimage(b) <==> multiset(a) == multiset(b)
  {
    LeOrders();
    SortedExact(a, Le);
    SortedExact(b, Le);
    if multiset(a) == multiset(b) {
      AscendingUnique(Sorted(a, Le), Sorted(b, Le));
    }
    if CombinedPreimage(a) == CombinedPreimage(b) {
      forall i | 0 <= i < |Sorted(a, Le)| ensures Digest(Sorted(a, Le)[i]) {
        assert Sorted(a, Le)[i] in multiset(a);
      }
      forall i | 0 <= i < |Sorted(b, Le)| ensures Digest(Sorted(b, Le)[i]) {
        assert Sorted(b, Le)[i] in multiset(b);
      }
      JoinInjective(Sorted(a, Le), Sorted(b, Le));
    }
  }
}
