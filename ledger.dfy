/**
  The verification-code ledger of server.js: a map from a lowercased email
  address to the pending code and the instant (milliseconds) it expires.
  Each slot goes Empty, then Pending on issue; from Pending it is consumed
  on a successful redemption, replaced by a later issue, or left to expire.
*/
module CodeLedger {
  import opened Text

  const MinuteMs := 60000
  /** Codes live for ten minutes. */
  const CodeTtlMs := 10 * MinuteMs

  /** What `Math.random() * 900000` contributes once floored: an integer in [0, 900000). */
  type Draw = d: int | 0 <= d < 900000

  datatype Entry = Entry(code: string, expiresAt: int)

  type Codes = map<string, Entry>

  /**
    The issued code, `Math.floor(100000 + draw).toString()`: always six
    digits, never a leading zero, and the draw is recoverable from it.
  */
  function CodeFromDraw(d: Draw): (code: string)
    ensures MatchesCodePattern(code) && code[0] != '0'
    ensures DigitsValue(code) == 100000 + d
  {
    SixDigitNumbers(100000 + d);
    DecimalRoundTrip(100000 + d);
    Decimal(100000 + d)
  }

  lemma CodeFromDrawInjective(d1: Draw, d2: Draw)
    ensures CodeFromDraw(d1) == CodeFromDraw(d2) <==> d1 == d2
  {
  }

  /** The acceptance test of a redemption: an entry exists, the code is identical, and it has not expired. */
  predicate Accepts(codes: Codes, key: string, code: string, now: int) {
    key in codes && codes[key].code == code && now <= codes[key].expiresAt
  }

  /** `codes.set(key, { code, expiresAt: now + 10 minutes })`. */
  function Issue(codes: Codes, key: string, code: string, now: int): (r: Codes)
    ensures r.Keys == codes.Keys + {key}
    ensures r[key] == Entry(code, now + CodeTtlMs)
    ensures forall k :: k in codes && k != key ==> r[k] == codes[k]
  {
    codes[key := Entry(code, now + CodeTtlMs)]
  }

  /** `codes.delete(key)`: a no-op when the key is absent. */
  function Consume(codes: Codes, key: string): (r: Codes)
    ensures r.Keys == codes.Keys - {key}
    ensures forall k :: k in r ==> r[k] == codes[k]
    ensures key !in codes ==> r == codes
  {
    codes - {key}
  }

  /** A fresh code is accepted until, and including, its expiry instant, and no other code is. */
  lemma AcceptsAfterIssue(codes: Codes, key: string, code: string, now: int, supplied: string, t: int)
    ensures Accepts(Issue(codes, key, code, now), key, supplied, t)
        <==> supplied == code && t <= now + CodeTtlMs
  {
  }

  /** Issuing for one key does not change what any other key accepts. */
  lemma IssueLeavesOtherKeys(codes: Codes, key: string, code: string, now: int,
                             other: string, supplied: string, t: int)
    requires other != key
    ensures Accepts(Issue(codes, key, code, now), other, supplied, t) <==> Accepts(codes, other, supplied, t)
  {
  }

  /** After a second issue for the same key the first code is accepted only if the two codes coincide. */
  lemma OverwriteInvalidates(codes: Codes, key: string, first: string, t1: int, second: string, t2: int, t: int)
    ensures Accepts(Issue(Issue(codes, key, first, t1), key, second, t2), key, first, t)
        <==> first == second && t <= t2 + CodeTtlMs
  {
  }

  /** With issued codes the two coincide only for equal draws. */
  lemma OverwriteInvalidatesDraws(codes: Codes, key: string, d1: Draw, t1: int, d2: Draw, t2: int, t: int)
    ensures Accepts(Issue(Issue(codes, key, CodeFromDraw(d1), t1), key, CodeFromDraw(d2), t2),
                    key, CodeFromDraw(d1), t)
        <==> d1 == d2 && t <= t2 + CodeTtlMs
  {
    OverwriteInvalidates(codes, key, CodeFromDraw(d1), t1, CodeFromDraw(d2), t2, t);
    CodeFromDrawInjective(d1, d2);
  }

  /** Once consumed, a slot accepts nothing. */
  lemma ConsumedRejects(codes: Codes, key: string, supplied: string, t: int)
    ensures !Accepts(Consume(codes, key), key, supplied, t)
  {
  }

  /** An expired entry stays expired: rejection at one instant implies rejection later. */
  lemma ExpiredStaysExpired(codes: Codes, key: string, supplied: string, t: int, later: int)
    requires key in codes && codes[key].code == supplied
    requires !Accepts(codes, key, supplied, t) && t <= later
    ensures !Accepts(codes, key, supplied, later)
  {
  }

  /** At most one live code per address at any instant. */
  lemma AtMostOneLiveCode(codes: Codes, key: string, c1: string, c2: string, t: int)
    requires Accepts(codes, key, c1, t) && Accepts(codes, key, c2, t)
    ensures c1 == c2
  {
  }
}
