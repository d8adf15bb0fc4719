/** `Generator.Generate` of `internal/generator/password.go`: validate the
    request, assemble the alphabets, seed one byte per alphabet at a probed
    position, fill the rest from all alphabets, then shuffle. */
module Generator {
  import opened Bytes
  import opened Random
  import opened Charsets
  import opened Slots
  import Config

  /** `MaxPasswordLength`: the longest password `Generate` accepts. */
  const MaxPasswordLength := 1000

  /** The error values `Generate` can return. */
  datatype GenError =
    | InvalidLength(length: int)                 // length <= 0
    | LengthTooLarge(length: int, max: int)      // length > MaxPasswordLength
    | NoCharacterTypes                           // no category flag set
    | RandomReadFailed                           // rand.Read returned an error

  /** A Go `(value, error)` pair in which exactly one side is meaningful. On
      `Err` the string returned is "", so no partial buffer escapes. */
  datatype Result<T> = Ok(value: T) | Err(error: GenError)

  /** The four character categories, in the order the alphabets are appended. */
  datatype Category = Upper | Lower | Number | Symbol

  predicate IsSelected(cfg: Config.PasswordConfig, c: Category) {
    match c
    case Upper => cfg.useUppercase
    case Lower => cfg.useLowercase
    case Number => cfg.useNumbers
    case Symbol => cfg.useSymbols
  }

  /** The alphabet a category draws from; a non-empty `CustomSymbols`
      replaces the default symbols. */
  function AlphabetOf(cfg: Config.PasswordConfig, c: Category): seq<byte> {
    match c
    case Upper => Config.Uppercase
    case Lower => Config.Lowercase
    case Number => Config.Numbers
    case Symbol => if cfg.customSymbols != [] then cfg.customSymbols else Config.Symbols
  }

  predicate AnySelected(cfg: Config.PasswordConfig) {
    cfg.useUppercase || cfg.useLowercase || cfg.useNumbers || cfg.useSymbols
  }

  /** Where category `c` sits in the list of selected alphabets: the number
      of selected categories that come before it. */
  function SelectionIndex(cfg: Config.PasswordConfig, c: Category): nat {
    var u := if cfg.useUppercase then 1 else 0;
    var l := if cfg.useLowercase then 1 else 0;
    var n := if cfg.useNumbers then 1 else 0;
    match c
    case Upper => 0
    case Lower => u
    case Number => u + l
    case Symbol => u + l + n
  }

  /** How many categories are selected. */
  function SelectedCount(cfg: Config.PasswordConfig): nat {
    SelectionIndex(cfg, Symbol) + (if cfg.useSymbols then 1 else 0)
  }

  /** The alphabets of the selected categories, one per flag that is set, in
      the fixed order Upper, Lower, Number, Symbol. */
  function SelectedAlphabets(cfg: Config.PasswordConfig): (cs: seq<seq<byte>>)
    ensures AllNonEmpty(cs)
    ensures |cs| == SelectedCount(cfg) <= 4
    ensures |cs| == 0 <==> !AnySelected(cfg)
  {
    Config.DefaultAlphabetsNonEmpty();
    (if cfg.useUppercase then [Config.Uppercase] else [])
    + (if cfg.useLowercase then [Config.Lowercase] else [])
    + (if cfg.useNumbers then [Config.Numbers] else [])
    + (if cfg.useSymbols then [AlphabetOf(cfg, Symbol)] else [])
  }

  /** Each selected category's alphabet appears in the list, at the index
      given by the fixed category order. */
  lemma SelectedAlphabetsInOrder(cfg: Config.PasswordConfig, c: Category)
    requires IsSelected(cfg, c)
    ensures SelectionIndex(cfg, c) < |SelectedAlphabets(cfg)|
    ensures SelectedAlphabets(cfg)[SelectionIndex(cfg, c)] == AlphabetOf(cfg, c)
  {
    match c
    case Upper =>
    case Lower =>
    case Number =>
    case Symbol =>
  }

  /** Every entry of the list belongs to exactly the selected category whose
      place in the fixed order it occupies. */
  lemma SelectedAlphabetsIndexed(cfg: Config.PasswordConfig, k: int)
    requires 0 <= k < |SelectedAlphabets(cfg)|
    ensures exists c :: IsSelected(cfg, c) && SelectionIndex(cfg, c) == k
  {
    if cfg.useUppercase && k == SelectionIndex(cfg, Upper) {
      assert IsSelected(cfg, Upper);
    } else if cfg.useLowercase && k == SelectionIndex(cfg, Lower) {
      assert IsSelected(cfg, Lower);
    } else if cfg.useNumbers && k == SelectionIndex(cfg, Number) {
      assert IsSelected(cfg, Number);
    } else {
      assert IsSelected(cfg, Symbol) && SelectionIndex(cfg, Symbol) == k;
    }
  }

  /** The union of the selected alphabets is exactly the union of the
      alphabets of the selected categories, nothing more. */
  lemma SelectedAlphabetsUnion(cfg: Config.PasswordConfig)
    ensures forall b :: InAny(b, SelectedAlphabets(cfg)) <==>
                        exists c :: IsSelected(cfg, c) && b in AlphabetOf(cfg, c)
  {
    var cs := SelectedAlphabets(cfg);
    forall b | InAny(b, cs) ensures exists c :: IsSelected(cfg, c) && b in AlphabetOf(cfg, c) {
      var k :| 0 <= k < |cs| && b in cs[k];
      SelectedAlphabetsIndexed(cfg, k);
      var c :| IsSelected(cfg, c) && SelectionIndex(cfg, c) == k;
      SelectedAlphabetsInOrder(cfg, c);
    }
    forall b, c | IsSelected(cfg, c) && b in AlphabetOf(cfg, c) ensures InAny(b, cs) {
      SelectedAlphabetsInOrder(cfg, c);
    }
  }

  /** Lines 17-71 of `Generate`: the length checks, the assembly of the
      alphabet list, the empty-selection check, and the second append of the
      same alphabets. */
  function PrepareCharsets(cfg: Config.PasswordConfig): (r: Result<seq<seq<byte>>>)
    ensures cfg.length <= 0 ==> r == Err(InvalidLength(cfg.length))
    ensures cfg.length > MaxPasswordLength ==> r == Err(LengthTooLarge(cfg.length, MaxPasswordLength))
    ensures 1 <= cfg.length <= MaxPasswordLength && !AnySelected(cfg) ==> r == Err(NoCharacterTypes)
    ensures r.Ok? <==> 1 <= cfg.length <= MaxPasswordLength && AnySelected(cfg)
    ensures r.Ok? ==> |r.value| == 2 * |SelectedAlphabets(cfg)| && |r.value| > 0
    ensures r.Ok? ==> forall i :: 0 <= i < |SelectedAlphabets(cfg)| ==>
                        r.value[i] == r.value[i + |SelectedAlphabets(cfg)|] == SelectedAlphabets(cfg)[i]
    ensures r.Ok? ==> AllNonEmpty(r.value)
  {
    if cfg.length <= 0 then Err(InvalidLength(cfg.length))
    else if cfg.length > MaxPasswordLength then Err(LengthTooLarge(cfg.length, MaxPasswordLength))
    else
      var charsets := SelectedAlphabets(cfg);
      if |charsets| == 0 then Err(NoCharacterTypes)
      else Ok(charsets + SelectedAlphabets(cfg))
  }

  /** Lines 85-88: linear probing. From `from`, step to `(pos + 1) % length`
      while the position is used. The probe stops at the first free position
      in cyclic order, and it stops because fewer than `length` positions are
      used, so a free one exists. */
  method Probe(used: set<int>, length: int, from: int) returns (pos: int)
    requires 0 <= from < length
    requires WithinBuffer(used, length) && |used| < length
    ensures 0 <= pos < length && pos !in used
    ensures forall k :: 0 <= k < Distance(from, pos, length) ==> StepsAfter(from, k, length) in used
  {
    FreeSlotExists(used, length);
    ghost var free :| 0 <= free < length && free !in used;
    pos := from;
    while pos in used
      invariant 0 <= pos < length
      invariant Distance(from, pos, length) <= Distance(from, free, length)
      invariant forall k :: 0 <= k < Distance(from, pos, length) ==> StepsAfter(from, k, length) in used
      decreases Distance(from, free, length) - Distance(from, pos, length)
    {
      NextPosition(pos, length);
      assert StepsAfter(from, Distance(from, pos, length), length) == pos;
      pos := (pos + 1) % length;
    }
  }

  /** Lines 73-91: one byte from each of the first `min(len(charsets), length)`
      alphabets, each at a distinct position. One random byte `b` chooses both
      the start position `b % length` and the index `b % len(charset)`; an
      occupied position is resolved by stepping to `(pos + 1) % length` until
      a free one is found, which always exists because at step i only i
      positions are taken. Positions never written hold 0, as `make` leaves
      them. */
  method SeedCoverage(length: int, charsets: seq<seq<byte>>, src: Source, start: nat)
    returns (ok: bool, result: seq<byte>, used: set<int>, next: nat)
    requires length >= 1
    requires AllNonEmpty(charsets)
    ensures |result| == length
    ensures ok ==> next == start + Min(|charsets|, length) && Succeeds(src, start, next)
    ensures !ok ==> 0 < next <= start + Min(|charsets|, length) && FirstFailure(src, start, next - 1)
    ensures ok ==> WithinBuffer(used, length) && |used| == Min(|charsets|, length)
    ensures ok ==> forall p :: p in used ==> InAny(result[p], charsets)
    ensures ok ==> forall p :: 0 <= p < length && p !in used ==> result[p] == 0
    ensures ok ==> forall i :: 0 <= i < Min(|charsets|, length) ==> CoversAt(result, used, charsets[i])
    ensures ok ==> forall i {:trigger PicksAt(result, used, charsets[i], src(start + i).value)} ::
                     0 <= i < Min(|charsets|, length) ==> PicksAt(result, used, charsets[i], src(start + i).value)
  {
    result := seq(length, _ => 0);
    used := {};
    next := start;
    ghost var seeds: seq<int> := [];
    var i := 0;
    while i < |charsets|
      invariant 0 <= i <= |charsets| && i <= length
      invariant |result| == length
      invariant next == start + i && Succeeds(src, start, next)
      invariant WithinBuffer(used, length) && |used| == i
      invariant |seeds| == i
      invariant forall k :: 0 <= k < i ==> seeds[k] in used && 0 <= seeds[k] < length
      invariant forall k :: 0 <= k < i ==> result[seeds[k]] == charsets[k][src(start + k).value % |charsets[k]|]
      invariant forall p :: p in used ==> InAny(result[p], charsets)
      invariant forall p :: 0 <= p < length && p !in used ==> result[p] == 0
    {
      if i >= length {
        break;
      }
      var d := src(next);
      next := next + 1;
      if d.ReadError? {
        ok := false;
        return;
      }
      var b := d.value;
      var pos := Probe(used, length, b % length);
      var charset := charsets[i];
      result := result[pos := charset[b % |charset|]];
      used := used + {pos};
      seeds := seeds + [pos];
      i := i + 1;
    }
    assert i == Min(|charsets|, length);
    forall k | 0 <= k < i
      ensures CoversAt(result, used, charsets[k])
      ensures PicksAt(result, used, charsets[k], src(start + k).value)
    {
      var p := seeds[k];
      assert p in used && 0 <= p < length && result[p] in charsets[k];
    }
    ok := true;
  }

  /** Lines 93-103: every position not seeded gets `allChars[b % len(allChars)]`
      for a fresh random byte `b`, where `allChars` is
      `strings.Join(charsets, "")`; seeded positions are left alone. One read
      per unseeded position. `allChars` is indexed only for an unseeded
      position, so it may be empty when every position was seeded. */
  method FillRemaining(seeded: seq<byte>, used: set<int>, charsets: seq<seq<byte>>, src: Source, start: nat)
    returns (ok: bool, result: seq<byte>, next: nat)
    requires |Join(charsets)| > 0 || |used| == |seeded|
    requires WithinBuffer(used, |seeded|)
    ensures |result| == |seeded|
    ensures ok ==> next == start + |seeded| - |used| && Succeeds(src, start, next)
    ensures !ok ==> 0 < next <= start + |seeded| - |used| && FirstFailure(src, start, next - 1)
    ensures ok ==> forall p :: p in used ==> result[p] == seeded[p]
    ensures ok ==> forall p :: 0 <= p < |seeded| && p !in used ==> InAny(result[p], charsets)
  {
    var allChars := Join(charsets);
    result := seeded;
    next := start;
    ghost var filled: set<int> := {};
    var i := 0;
    while i < |seeded|
      invariant 0 <= i <= |seeded|
      invariant |result| == |seeded|
      invariant forall p :: p in filled <==> 0 <= p < i && p !in used
      invariant next == start + |filled| && Succeeds(src, start, next)
      invariant forall p :: p in used ==> result[p] == seeded[p]
      invariant forall p :: 0 <= p < i && p !in used ==> InAny(result[p], charsets)
    {
      if i !in used {
        RoomForNext(filled, used, i, |seeded|);
        var d := src(next);
        next := next + 1;
        if d.ReadError? {
          ok := false;
          return;
        }
        assert |allChars| > 0;
        result := result[i := allChars[d.value % |allChars|]];
        filled := filled + {i};
      }
      i := i + 1;
    }
    PartitionCount(filled, used, |seeded|);
    ok := true;
  }

  /** Lines 106-113: a Fisher-Yates pass from the last index down to 1,
      swapping index i with `b % (i + 1)`. Every swap is within the buffer,
      so the result is a rearrangement of the input. One read per index. */
  method Shuffle(a: seq<byte>, src: Source, start: nat)
    returns (ok: bool, result: seq<byte>, next: nat)
    ensures |result| == |a|
    ensures ok ==> multiset(result) == multiset(a)
    ensures ok ==> next == start + Max0(|a| - 1) && Succeeds(src, start, next)
    ensures !ok ==> 0 < next <= start + Max0(|a| - 1) && FirstFailure(src, start, next - 1)
  {
    result := a;
    next := start;
    var i := |a| - 1;
    while i > 0
      invariant -1 <= i < |a|
      invariant |a| > 0 ==> i >= 0
      invariant |result| == |a|
      invariant multiset(result) == multiset(a)
      invariant next == start + Max0(|a| - 1) - Max0(i) && Succeeds(src, start, next)
    {
      var d := src(next);
      next := next + 1;
      if d.ReadError? {
        ok := false;
        return;
      }
      var j := d.value % (i + 1);
      result := result[i := result[j]][j := result[i]];
      i := i - 1;
    }
    ok := true;
  }

  function Max0(x: int): nat {
    if x < 0 then 0 else x
  }

  /** After the fill, every byte comes from the alphabets and every alphabet
      the seeding covered is still covered. */
  lemma FillKeepsSeeds(seeded: seq<byte>, filled: seq<byte>, used: set<int>, charsets: seq<seq<byte>>)
    requires |filled| == |seeded| && WithinBuffer(used, |seeded|)
    requires forall p :: p in used ==> InAny(seeded[p], charsets)
    requires forall p :: p in used ==> filled[p] == seeded[p]
    requires forall p :: 0 <= p < |seeded| && p !in used ==> InAny(filled[p], charsets)
    ensures AllFrom(filled, charsets)
    ensures forall alphabet :: CoversAt(seeded, used, alphabet) ==> Covers(filled, alphabet)
  {
    forall p | 0 <= p < |filled| ensures InAny(filled[p], charsets) {
      if p in used {
        assert filled[p] == seeded[p];
      }
    }
    forall alphabet | CoversAt(seeded, used, alphabet) ensures Covers(filled, alphabet) {
      var p :| p in used && 0 <= p < |seeded| && seeded[p] in alphabet;
      assert filled[p] == seeded[p];
    }
  }

  /** Lines 73-103: seed, then fill from `strings.Join(charsets, "")`. One
      read per position when all succeed. */
  method SeedAndFill(length: int, charsets: seq<seq<byte>>, src: Source)
    returns (ok: bool, filled: seq<byte>, next: nat)
    requires length >= 1
    requires |charsets| > 0 && AllNonEmpty(charsets)
    ensures |filled| == length
    ensures ok ==> next == length && Succeeds(src, 0, length)
    ensures !ok ==> 0 < next <= length && FirstFailure(src, 0, next - 1)
    ensures ok ==> AllFrom(filled, charsets)
    ensures ok ==> forall i :: 0 <= i < Min(|charsets|, length) ==> Covers(filled, charsets[i])
  {
    var seededOk, seeded, used, afterSeed := SeedCoverage(length, charsets, src, 0);
    if !seededOk {
      return false, seeded, afterSeed;
    }
    assert afterSeed == Min(|charsets|, length) == |used| && Succeeds(src, 0, afterSeed);
    assert |charsets[0]| > 0;
    ok, filled, next := FillRemaining(seeded, used, charsets, src, afterSeed);
    if !ok {
      FailureAfter(src, 0, afterSeed, next - 1);
      return;
    }
    SucceedsJoin(src, 0, afterSeed, next);
    FillKeepsSeeds(seeded, filled, used, charsets);
  }

  /** Lines 73-115, after validation: seed, fill, shuffle. Exactly
      `2 * length - 1` reads are made when all succeed; the first failing
      read aborts with no buffer returned. */
  method BuildPassword(length: int, charsets: seq<seq<byte>>, src: Source) returns (r: Result<seq<byte>>, drawn: nat)
    requires length >= 1
    requires |charsets| > 0 && AllNonEmpty(charsets)
    ensures r.Ok? <==> Succeeds(src, 0, 2 * length - 1)
    ensures r.Err? ==> r.error == RandomReadFailed && 0 < drawn < 2 * length && FirstFailure(src, 0, drawn - 1)
    ensures r.Ok? ==> |r.value| == length && drawn == 2 * length - 1
    ensures r.Ok? ==> AllFrom(r.value, charsets)
    ensures r.Ok? ==> forall i :: 0 <= i < Min(|charsets|, length) ==> Covers(r.value, charsets[i])
  {
    var ok, filled, next := SeedAndFill(length, charsets, src);
    if !ok {
      FailureAfter(src, 0, 0, next - 1);
      return Err(RandomReadFailed), next;
    }
    var shuffled;
    ok, shuffled, next := Shuffle(filled, src, length);
    if !ok {
      FailureAfter(src, 0, length, next - 1);
      return Err(RandomReadFailed), next;
    }
    SucceedsJoin(src, 0, length, next);
    PermutationKeepsMembership(filled, shuffled, charsets);
    r, drawn := Ok(shuffled), next;
  }

  /** The whole of `Generate`. */
  method Generate(cfg: Config.PasswordConfig, src: Source) returns (r: Result<seq<byte>>, drawn: nat)
    ensures cfg.length <= 0 ==> r == Err(InvalidLength(cfg.length)) && drawn == 0
    ensures cfg.length > MaxPasswordLength ==> r == Err(LengthTooLarge(cfg.length, MaxPasswordLength)) && drawn == 0
    ensures 1 <= cfg.length <= MaxPasswordLength && !AnySelected(cfg) ==> r == Err(NoCharacterTypes) && drawn == 0
    ensures r.Ok? <==> 1 <= cfg.length <= MaxPasswordLength && AnySelected(cfg) && Succeeds(src, 0, 2 * cfg.length - 1)
    ensures r == Err(RandomReadFailed) ==> 0 < drawn < 2 * cfg.length && FirstFailure(src, 0, drawn - 1)
    ensures r.Ok? ==> |r.value| == cfg.length && drawn == 2 * cfg.length - 1
    ensures r.Ok? ==> AllFrom(r.value, SelectedAlphabets(cfg))
    ensures r.Ok? ==> forall c :: IsSelected(cfg, c) && SelectionIndex(cfg, c) < cfg.length ==>
                         Covers(r.value, AlphabetOf(cfg, c))
  {
    var prepared := PrepareCharsets(cfg);
    if prepared.Err? {
      return Err(prepared.error), 0;
    }
    var charsets := prepared.value;
    // The guard of lines 69-71 cannot hold here: the list was non-empty before
    // it was appended a second time, and the length was checked at line 21.
    assert |charsets| != 0 && cfg.length > 0;
    r, drawn := BuildPassword(cfg.length, charsets, src);
    if r.Ok? {
      ghost var sel := SelectedAlphabets(cfg);
      assert charsets == sel + sel;
      DoubledUnion(sel);
      forall c | IsSelected(cfg, c) && SelectionIndex(cfg, c) < cfg.length ensures Covers(r.value, AlphabetOf(cfg, c)) {
        SelectedAlphabetsInOrder(cfg, c);
        assert Covers(r.value, charsets[SelectionIndex(cfg, c)]);
      }
    }
  }
}
