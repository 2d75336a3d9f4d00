/** The .NET primitives the core calls but whose code is not part of this model:
    SHA-256 with Base64 or raw output, `DateTime` and `TimeSpan` formatting, and
    `DateTime.Parse`. They are fields of a `Primitives` record of total functions; what the
    core assumes of them is stated as predicates that the lemmas needing them require. */
module Platform {
  import opened Wrappers
  import Numbers

  /** `DateTime` ticks are 100 ns. Timestamps are UTC ticks throughout the model. */
  const TicksPerSecond: nat := 10_000_000

  /** A SHA-256 digest: 32 bytes. */
  type Digest = d: seq<Numbers.Byte> | |d| == 32 witness seq(32, _ => 0)

  datatype Primitives = Primitives(
    /** `Convert.ToBase64String(SHA256(UTF8.GetBytes(s)))` */
    eventDigest: string -> string,
    /** `SHA256(UTF8.GetBytes(s))` */
    configDigest: string -> Digest,
    /** `DateTime.ToString(CultureInfo.InvariantCulture)`, which shows whole seconds */
    formatDateTime: nat -> string,
    /** `TimeSpan.ToString()` of a span given in ticks */
    formatTimeSpan: int -> string,
    /** `DateTime.ToString("u")`, the universal sortable format, which shows whole seconds */
    formatUniversal: nat -> string,
    /** `DateTime.Parse(s).ToUniversalTime()`; None where `Parse` throws */
    parseDateTime: string -> Option<nat>
  )

  /** The timestamp cut down to the whole second it falls in. */
  function WholeSeconds(t: nat): (r: nat)
    ensures r <= t && t - r < TicksPerSecond
    ensures r % TicksPerSecond == 0
  {
    t - t % TicksPerSecond
  }

  /** Idealised SHA-256: distinct inputs have distinct event digests. */
  ghost predicate CollisionFree(p: Primitives) {
    forall a, b :: p.eventDigest(a) == p.eventDigest(b) ==> a == b
  }

  /** The invariant date format identifies the second and nothing finer. */
  ghost predicate SecondResolutionDates(p: Primitives) {
    forall a: nat, b: nat :: p.formatDateTime(a) == p.formatDateTime(b) <==> a / TicksPerSecond == b / TicksPerSecond
  }

  /** `TimeSpan.ToString()` shows every tick, so distinct spans print differently. */
  ghost predicate TimeSpanFormatInjective(p: Primitives) {
    forall a, b :: p.formatTimeSpan(a) == p.formatTimeSpan(b) ==> a == b
  }

  /** Parsing what `"u"` printed gives back the timestamp at whole-second resolution. */
  ghost predicate UniversalRoundTrip(p: Primitives) {
    forall t: nat :: p.parseDateTime(p.formatUniversal(t)) == Some(WholeSeconds(t))
  }

  ghost predicate Faithful(p: Primitives) {
    && CollisionFree(p)
    && SecondResolutionDates(p)
    && TimeSpanFormatInjective(p)
    && UniversalRoundTrip(p)
  }

  /** Reads back a string of decimal digits; used to build a witness below. */
  function ParseDigits(s: string): nat
  {
    if |s| == 0 then 0
    else 10 * ParseDigits(s[..|s| - 1]) + (if '0' <= s[|s| - 1] <= '9' then (s[|s| - 1] - '0') as nat else 0)
  }

  lemma {:induction false} ParseDigitsOfNatToString(n: nat)
    ensures ParseDigits(Numbers.NatToString(n)) == n
  {
    var r := Numbers.NatToString(n);
    if n < 10 {
      assert r[..0] == "";
      assert "0123456789"[n] as int - '0' as int == n;
    } else {
      ParseDigitsOfNatToString(n / 10);
      assert r[..|r| - 1] == Numbers.NatToString(n / 10);
      assert "0123456789"[n % 10] as int - '0' as int == n % 10;
    }
  }

  /** The assumptions are consistent: a record of primitives meets all of them. */
  lemma {:induction false} AssumptionsAreConsistent()
    ensures exists p :: Faithful(p)
  {
    var p := Primitives(
      (s: string) => s,
      (s: string) => seq(32, _ => 0),
      (t: nat) => Numbers.NatToString(t / TicksPerSecond),
      (d: int) => Numbers.IntToString(d),
      (t: nat) => Numbers.NatToString(t / TicksPerSecond),
      (s: string) => Some(TicksPerSecond * ParseDigits(s)));
    forall a: nat, b: nat ensures p.formatDateTime(a) == p.formatDateTime(b) <==> a / TicksPerSecond == b / TicksPerSecond {
      if p.formatDateTime(a) == p.formatDateTime(b) {
        Numbers.NatToStringInjective(a / TicksPerSecond, b / TicksPerSecond);
      }
    }
    forall a, b | p.formatTimeSpan(a) == p.formatTimeSpan(b) ensures a == b {
      Numbers.IntToStringInjective(a, b);
    }
    forall t: nat ensures p.parseDateTime(p.formatUniversal(t)) == Some(WholeSeconds(t)) {
      ParseDigitsOfNatToString(t / TicksPerSecond);
    }
    assert Faithful(p);
  }
}
