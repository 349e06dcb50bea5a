/** The identifier generator (generate_availability_id). The clock is read
    through `now`: every read inside one request sees the same value, so the
    six sampled characters are the same character. On a collision with an
    existing key the id is extended with the decimal text of `now % 100`,
    which is not checked against the store again. */
module IdGen {
  import opened Types

  const Charset: string := "abcdefghijklmnopqrstuvwxyz0123456789"
  const BaseLength: nat := 6

  /** The six characters sampled at time `now`. */
  function BaseId(now: nat): (id: string)
    ensures |id| == BaseLength
    ensures forall k :: 0 <= k < |id| ==> id[k] in Charset
  {
    var c := Charset[now % |Charset|];
    [c, c, c, c, c, c]
  }

  /** Rust's `{}` formatting of a number below 100: one or two decimal digits,
      no padding. */
  function Decimal(n: nat): (s: string)
    requires n < 100
    ensures 1 <= |s| <= 2
    ensures |s| == 2 <==> n >= 10
    ensures forall k :: 0 <= k < |s| ==> '0' <= s[k] <= '9'
  {
    if n < 10 then [Digit(n)] else [Digit(n / 10), Digit(n % 10)]
  }

  function Digit(d: nat): (c: char)
    requires d < 10
    ensures c as int - '0' as int == d
  {
    ('0' as int + d) as char
  }

  /** The value of a string of decimal digits, most significant first. */
  function DecimalValue(s: string): nat
    requires forall k :: 0 <= k < |s| ==> '0' <= s[k] <= '9'
  {
    if s == [] then 0
    else DecimalValue(s[..|s| - 1]) * 10 + (s[|s| - 1] as int - '0' as int)
  }

  /** Reading the suffix back gives the number it was printed from. */
  lemma DecimalRoundTrip(n: nat)
    requires n < 100
    ensures DecimalValue(Decimal(n)) == n
  {
    var s := Decimal(n);
    if n < 10 {
      assert s[..0] == [];
    } else {
      assert s[..1][..0] == [];
      assert DecimalValue(s[..1]) == n / 10;
      assert n / 10 * 10 + n % 10 == n;
    }
  }

  /** generate_availability_id against the keys of the store. */
  function GenerateAvailabilityId(now: nat, keys: set<string>): (id: string)
    ensures BaseLength <= |id| <= BaseLength + 2
    ensures id[..BaseLength] == BaseId(now)
    ensures forall k :: 0 <= k < BaseLength ==> id[k] in Charset
    ensures BaseId(now) !in keys ==> id == BaseId(now) && id !in keys
    ensures BaseId(now) in keys ==> id != BaseId(now) && id[BaseLength..] == Decimal(now % 100)
  {
    var base := BaseId(now);
    if base in keys then base + Decimal(now % 100) else base
  }

  /** The collision branch does not guarantee freshness: with "aaaaaa" and
      "aaaaaa36" both taken, time 936 (936 % 36 == 0, 936 % 100 == 36) yields
      "aaaaaa36" again. */
  lemma SuffixedIdMayCollide()
    ensures GenerateAvailabilityId(936, {"aaaaaa", "aaaaaa36"}) in {"aaaaaa", "aaaaaa36"}
  {
    assert 936 % |Charset| == 0 && Charset[0] == 'a';
    assert BaseId(936) == "aaaaaa";
    assert 936 % 100 == 36 && 36 / 10 == 3 && 36 % 10 == 6;
    assert Decimal(36) == "36";
    assert "aaaaaa" + "36" == "aaaaaa36";
  }

  /** Ids generated at times equal modulo 900, the least common multiple of
      the base character's period 36 and the suffix's period 100, are
      identical against the same keys. */
  lemma {:induction false} GeneratedIdPeriodic(now: nat, keys: set<string>)
    ensures GenerateAvailabilityId(now + 900, keys) == GenerateAvailabilityId(now, keys)
  {
    assert (now + 900) % 36 == now % 36;
    assert (now + 900) % 100 == now % 100;
    assert BaseId(now + 900) == BaseId(now);
  }
}
