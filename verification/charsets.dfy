/** Facts about lists of alphabets: the concatenation `strings.Join(charsets, "")`,
    membership in the union of the alphabets, and the coverage predicate. */
module Charsets {
  import opened Bytes

  /** `b` belongs to at least one alphabet of `cs`. */
  predicate InAny(b: byte, cs: seq<seq<byte>>) {
    exists c :: 0 <= c < |cs| && b in cs[c]
  }

  /** Every alphabet of `cs` has at least one byte, so `x % len(alphabet)` is defined. */
  predicate AllNonEmpty(cs: seq<seq<byte>>) {
    forall c :: 0 <= c < |cs| ==> |cs[c]| > 0
  }

  /** Every byte of `s` belongs to one of the alphabets of `cs`. */
  predicate AllFrom(s: seq<byte>, cs: seq<seq<byte>>) {
    forall p :: 0 <= p < |s| ==> InAny(s[p], cs)
  }

  /** Some byte of `s` belongs to `alphabet`. */
  predicate Covers(s: seq<byte>, alphabet: seq<byte>) {
    exists p :: 0 <= p < |s| && s[p] in alphabet
  }

  /** Some position of `s` listed in `at` holds a byte of `alphabet`. */
  predicate CoversAt(s: seq<byte>, at: set<int>, alphabet: seq<byte>) {
    exists p :: p in at && 0 <= p < |s| && s[p] in alphabet
  }

  /** Some position of `s` listed in `at` holds `alphabet[b % len(alphabet)]`,
      the byte that random byte `b` picks from `alphabet`. */
  predicate PicksAt(s: seq<byte>, at: set<int>, alphabet: seq<byte>, b: byte) {
    |alphabet| > 0 && exists p :: p in at && 0 <= p < |s| && s[p] == alphabet[b % |alphabet|]
  }

  /** `strings.Join(cs, "")`: the alphabets one after the other. */
  function Join(cs: seq<seq<byte>>): (r: seq<byte>)
    ensures forall b :: b in r <==> InAny(b, cs)
    ensures |r| == 0 <==> forall c :: 0 <= c < |cs| ==> |cs[c]| == 0
  {
    if cs == [] then []
    else
      var rest := Join(cs[1..]);
      assert forall b :: InAny(b, cs[1..]) ==> InAny(b, cs) by {
        forall b | InAny(b, cs[1..]) ensures InAny(b, cs) {
          var c :| 0 <= c < |cs[1..]| && b in cs[1..][c];
          assert b in cs[c + 1];
        }
      }
      assert forall b :: InAny(b, cs) && b !in cs[0] ==> InAny(b, cs[1..]) by {
        forall b | InAny(b, cs) && b !in cs[0] ensures InAny(b, cs[1..]) {
          var c :| 0 <= c < |cs| && b in cs[c];
          assert c != 0 && b in cs[1..][c - 1];
        }
      }
      cs[0] + rest
  }

  /** Listing the alphabets twice, as `Generate` does, adds no new byte to
      their union. */
  lemma DoubledUnion(cs: seq<seq<byte>>)
    ensures forall b :: InAny(b, cs + cs) <==> InAny(b, cs)
  {
    forall b | InAny(b, cs + cs) ensures InAny(b, cs) {
      var c :| 0 <= c < |cs + cs| && b in (cs + cs)[c];
      if c >= |cs| {
        assert b in cs[c - |cs|];
      } else {
        assert b in cs[c];
      }
    }
    forall b | InAny(b, cs) ensures InAny(b, cs + cs) {
      var c :| 0 <= c < |cs| && b in cs[c];
      assert b in (cs + cs)[c];
    }
  }

  /** Rearranging the bytes of a password keeps both the "drawn from the
      alphabets" and the "covers an alphabet" properties. */
  lemma PermutationKeepsMembership(a: seq<byte>, r: seq<byte>, cs: seq<seq<byte>>)
    requires multiset(a) == multiset(r)
    ensures AllFrom(a, cs) ==> AllFrom(r, cs)
    ensures forall alphabet :: Covers(a, alphabet) ==> Covers(r, alphabet)
  {
    if AllFrom(a, cs) {
      forall q | 0 <= q < |r| ensures InAny(r[q], cs) {
        assert r[q] in multiset(a);
        var p :| 0 <= p < |a| && a[p] == r[q];
      }
    }
    forall alphabet | Covers(a, alphabet) ensures Covers(r, alphabet) {
      var p :| 0 <= p < |a| && a[p] in alphabet;
      assert a[p] in multiset(r);
      var q :| 0 <= q < |r| && r[q] == a[p];
    }
  }
}
