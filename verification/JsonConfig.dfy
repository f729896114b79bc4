/** Rewriting values in a JSON configuration document. */
module JsonConfig {
  import opened Common
  import opened JsonValues

  type Path = seq<string>

  /** How a text reads as a float: the JSON number for one that is finite and has a fractional part. */
  type Floats = string -> Option<string>

  // ----- typing a value

  function Lower(c: char): char {
    if 'A' <= c <= 'Z' then (c as int + 32) as char else c
  }

  /** Equality that ignores ASCII case. */
  predicate EqualsIgnoringCase(a: string, b: string) {
    |a| == |b| && forall i :: 0 <= i < |a| ==> Lower(a[i]) == Lower(b[i])
  }

  /** The value of a string of decimal digits. */
  function Digits(s: string): Option<nat> {
    if s == [] then Some(0)
    else
      var last := s[|s| - 1];
      match Digits(s[..|s| - 1])
      case None => None
      case Some(n) => if '0' <= last <= '9' then Some(10 * n + (last as int - '0' as int)) else None
  }

  /** A signed 64-bit integer: an optional sign and at least one digit, within range. */
  function ParseI64(s: string): Option<int> {
    var negative := s != [] && s[0] == '-';
    var digits := if s != [] && (s[0] == '-' || s[0] == '+') then s[1..] else s;
    if digits == [] then None
    else
      match Digits(digits)
      case None => None
      case Some(n) =>
        var i := if negative then -(n as int) else n;
        if -0x8000_0000_0000_0000 <= i < 0x8000_0000_0000_0000 then Some(i) else None
  }

  function ShowInteger(i: int): string {
    if i < 0 then "-" + Decimal(-i) else Decimal(i)
  }

  lemma {:induction false} DigitsOfDecimal(n: nat)
    ensures Digits(Decimal(n)) == Some(n)
  {
    var s := Decimal(n);
    if n < 10 {
      assert s[..0] == [];
    } else {
      assert s[..|s| - 1] == Decimal(n / 10);
      DigitsOfDecimal(n / 10);
    }
  }

  /** A decimal integer is typed as that integer, exactly when it fits 64 bits. */
  lemma IntegersReadBack(i: int, floats: Floats)
    ensures Typed(ShowInteger(i), floats) == Integer(i)
       <==> -0x8000_0000_0000_0000 <= i < 0x8000_0000_0000_0000
  {
    var s, n := ShowInteger(i), if i < 0 then -i else i;
    DigitsOfDecimal(n);
    assert s[0] == '-' || IsDigit(s[0]);
    assert i < 0 ==> s[1..] == Decimal(n);
  }

  function Typed(value: string, floats: Floats): Json {
    if EqualsIgnoringCase(value, "true") then Bool(true)
    else if EqualsIgnoringCase(value, "false") then Bool(false)
    else if ParseI64(value).Some? then Integer(ParseI64(value).value)
    else if floats(value).Some? then Float(floats(value).value)
    else Str(value)
  }

  // ----- what the types mean, by characters

  predicate IsTrue(s: string) {
    |s| == 4 && s[0] in "tT" && s[1] in "rR" && s[2] in "uU" && s[3] in "eE"
  }

  predicate IsFalse(s: string) {
    |s| == 5 && s[0] in "fF" && s[1] in "aA" && s[2] in "lL" && s[3] in "sS" && s[4] in "eE"
  }

  function PowerOfTen(n: nat): nat {
    if n == 0 then 1 else 10 * PowerOfTen(n - 1)
  }

  /** The number a string of digits denotes, each digit by its place. */
  function Value(s: string): nat
    requires AllDigits(s)
  {
    if s == [] then 0 else (s[0] as nat - 48) * PowerOfTen(|s| - 1) + Value(s[1..])
  }

  lemma {:induction false} ValueMore(s: string, last: char)
    requires AllDigits(s) && IsDigit(last)
    ensures AllDigits(s + [last]) && Value(s + [last]) == 10 * Value(s) + (last as nat - 48)
  {
    if s == [] {
      assert Value([]) == 0;
      assert [last][1..] == [] && [] + [last] == [last];
    } else {
      ValueMore(s[1..], last);
      assert (s + [last])[1..] == s[1..] + [last];
      Place(s[0] as nat - 48, |s| - 1);
    }
  }

  lemma Place(digit: nat, n: nat)
    ensures digit * PowerOfTen(n + 1) == 10 * (digit * PowerOfTen(n))
  {
  }

  lemma {:induction false} DigitsMeaning(s: string)
    ensures Digits(s).Some? <==> AllDigits(s)
    ensures AllDigits(s) ==> Digits(s) == Some(Value(s))
  {
    if s != [] {
      var init, last := s[..|s| - 1], s[|s| - 1];
      DigitsMeaning(init);
      assert s == init + [last];
      if AllDigits(init) && IsDigit(last) {
        ValueMore(init, last);
      }
    }
  }

  /** An optional sign and decimal digits, at least one, that denote a signed 64-bit integer. */
  predicate Denotes(s: string, i: int) {
    var signed := s != [] && s[0] in "+-";
    var digits := if signed then s[1..] else s;
    && digits != [] && AllDigits(digits)
    && i == (if s[0] == '-' then -(Value(digits) as int) else Value(digits))
    && -0x8000_0000_0000_0000 <= i < 0x8000_0000_0000_0000
  }

  lemma ParseMeaning(s: string, i: int)
    ensures ParseI64(s) == Some(i) <==> Denotes(s, i)
  {
    DigitsMeaning(if s != [] && s[0] in "+-" then s[1..] else s);
  }

  lemma Words(s: string)
    ensures EqualsIgnoringCase(s, "true") <==> IsTrue(s)
    ensures EqualsIgnoringCase(s, "false") <==> IsFalse(s)
  {
    LowerMeaning();
  }

  lemma LowerMeaning()
    ensures forall c: char, d: char :: 'a' <= d <= 'z' ==> (Lower(c) == Lower(d) <==> c == d || c as int + 32 == d as int)
  {
  }

  /** A text is typed by what it says: the words true and false in any case, then a decimal integer of 64
      bits, then a fraction; anything else stays the string it is. */
  lemma TypedMeaning(value: string, floats: Floats, i: int)
    ensures Typed(value, floats) == Bool(true) <==> IsTrue(value)
    ensures Typed(value, floats) == Bool(false) <==> IsFalse(value)
    ensures Typed(value, floats) == Integer(i) <==> Denotes(value, i)
    ensures !IsTrue(value) && !IsFalse(value) && !(exists n :: Denotes(value, n)) ==>
              (Typed(value, floats) == match floats(value) case Some(text) => Float(text) case None => Str(value))
  {
    Words(value);
    ParseMeaning(value, i);
    if ParseI64(value).Some? {
      ParseMeaning(value, ParseI64(value).value);
    }
    if IsTrue(value) || IsFalse(value) {
      DigitsMeaning(value);
      assert !AllDigits(value) by { assert !IsDigit(value[0]); }
    }
  }

  // ----- reading and writing at a path

  function Lookup(json: Json, path: Path): Option<Json> {
    if path == [] then Some(json)
    else if json.Object? && path[0] in json.members then Lookup(json.members[path[0]], path[1..])
    else None
  }

  function Entry(members: map<string, Json>, key: string): Json {
    if key in members then members[key] else Object(map[])
  }

  function Updated(json: Json, path: Path, value: string, floats: Floats): Json
    decreases |path|
  {
    if path == [] then json
    else if |path| == 1 then
      if json.Object? then Object(json.members[path[0] := Typed(value, floats)])
      else Object(map[path[0] := Str(value)])
    else if json.Object? then
      Object(json.members[path[0] := Updated(Entry(json.members, path[0]), path[1..], value, floats)])
    else
      Object(map[path[0] := Updated(Object(map[]), path[1..], value, floats)])
  }

  /** What stands where the leaf's parent should be is an object, or nothing. */
  predicate ParentFits(json: Json, path: Path)
    requires path != []
  {
    var parent := Lookup(json, path[..|path| - 1]);
    parent.None? || parent.value.Object?
  }

  lemma ParentStep(json: Json, path: Path)
    requires |path| > 1
    ensures ParentFits(json, path) <==>
            (json.Object? && path[0] in json.members ==> ParentFits(json.members[path[0]], path[1..]))
    ensures ParentFits(Object(map[]), path)
  {
    assert path[..|path| - 1][1..] == path[1..][..|path[1..]| - 1];
  }

  /** The written path reads back the typed value, or the raw string where the leaf's parent was
      neither an object nor absent. */
  lemma {:induction false} LookupUpdated(json: Json, path: Path, value: string, floats: Floats)
    requires path != []
    ensures Lookup(Updated(json, path, value, floats), path)
         == Some(if ParentFits(json, path) then Typed(value, floats) else Str(value))
    decreases |path|
  {
    if |path| == 1 {
      assert path[..0] == [] && path[1..] == [];
    } else {
      ParentStep(json, path);
      if json.Object? {
        if |path| > 2 {
          ParentStep(Object(map[]), path[1..]);
        }
        LookupUpdated(Entry(json.members, path[0]), path[1..], value, floats);
      } else {
        if |path| > 2 {
          ParentStep(Object(map[]), path[1..]);
        }
        LookupUpdated(Object(map[]), path[1..], value, floats);
      }
    }
  }

  ghost predicate Incomparable(p: Path, q: Path) {
    !(p <= q) && !(q <= p)
  }

  lemma IncomparableStep(p: Path, q: Path)
    requires Incomparable(p, q) && p[0] == q[0]
    ensures |p| > 1 && |q| > 1 && Incomparable(p[1..], q[1..])
  {
    assert p == [p[0]] + p[1..] && q == [q[0]] + q[1..];
  }

  /** A path that is neither a prefix nor an extension of the written one reads as before. */
  lemma {:induction false} LookupElsewhere(json: Json, path: Path, value: string, floats: Floats, q: Path)
    requires Incomparable(path, q)
    ensures Lookup(Updated(json, path, value, floats), q) == Lookup(json, q)
    decreases |path|
  {
    if path[0] == q[0] {
      IncomparableStep(path, q);
      if json.Object? {
        LookupElsewhere(Entry(json.members, path[0]), path[1..], value, floats, q[1..]);
      } else {
        LookupElsewhere(Object(map[]), path[1..], value, floats, q[1..]);
      }
    }
  }

  /** After an update the leaf's parent is an object. */
  lemma {:induction false} UpdatedParentFits(json: Json, path: Path, value: string, floats: Floats)
    requires path != []
    ensures ParentFits(Updated(json, path, value, floats), path)
    decreases |path|
  {
    if |path| == 1 {
      assert path[..0] == [];
    } else {
      ParentStep(Updated(json, path, value, floats), path);
      UpdatedParentFits(if json.Object? then Entry(json.members, path[0]) else Object(map[]), path[1..], value, floats);
    }
  }

  /** Where the path already reads the typed value the update changes nothing. */
  lemma {:induction false} UpdateOfTyped(json: Json, path: Path, value: string, floats: Floats)
    requires path != [] && Lookup(json, path) == Some(Typed(value, floats))
    ensures Updated(json, path, value, floats) == json
    decreases |path|
  {
    if |path| == 1 {
      assert path[1..] == [];
      assert json.members[path[0] := Typed(value, floats)] == json.members;
    } else {
      UpdateOfTyped(json.members[path[0]], path[1..], value, floats);
      assert json.members[path[0] := json.members[path[0]]] == json.members;
    }
  }

  /** A second update changes nothing exactly when the first wrote the typed value ... */
  lemma UpdateTwiceIff(json: Json, path: Path, value: string, floats: Floats)
    requires path != []
    ensures
      var once := Updated(json, path, value, floats);
      Updated(once, path, value, floats) == once <==> ParentFits(json, path) || Typed(value, floats) == Str(value)
  {
    var once := Updated(json, path, value, floats);
    LookupUpdated(json, path, value, floats);
    if Lookup(once, path) == Some(Typed(value, floats)) {
      UpdateOfTyped(once, path, value, floats);
    } else {
      UpdatedParentFits(json, path, value, floats);
      LookupUpdated(once, path, value, floats);
    }
  }

  /** ... and a third never does. */
  lemma UpdateThrice(json: Json, path: Path, value: string, floats: Floats)
    requires path != []
    ensures
      var twice := Updated(Updated(json, path, value, floats), path, value, floats);
      Updated(twice, path, value, floats) == twice
  {
    UpdatedParentFits(json, path, value, floats);
    UpdateTwiceIff(Updated(json, path, value, floats), path, value, floats);
  }

  /** Where a string stands at "a", writing 1 at a.b leaves the text first and the number only then. */
  lemma SecondUpdateTypes(floats: Floats)
    ensures
      var json := Object(map["a" := Str("s")]);
      var once := Updated(json, ["a", "b"], "1", floats);
      && once == Object(map["a" := Object(map["b" := Str("1")])])
      && Updated(once, ["a", "b"], "1", floats) == Object(map["a" := Object(map["b" := Integer(1)])])
  {
    var path := ["a", "b"];
    assert path[1..] == ["b"];
    assert ShowInteger(1) == "1";
    IntegersReadBack(1, floats);
    var once := Object(map["a" := Object(map["b" := Str("1")])]);
    assert Updated(Str("s"), ["b"], "1", floats) == Object(map["b" := Str("1")]);
    assert Updated(Object(map["b" := Str("1")]), ["b"], "1", floats) == Object(map["b" := Integer(1)]);
  }

  // ----- whole configuration files

  /** One replacement: the components of its match, and the value its template resolves to, if any. */
  datatype Replacement = Replacement(path: Path, value: Option<string>)

  function Replaced(json: Json, r: Replacement, floats: Floats): Json {
    if r.value.Some? then Updated(json, r.path, r.value.value, floats) else json
  }

  function ReplacedAll(json: Json, rs: seq<Replacement>, floats: Floats): Json {
    if rs == [] then json else Replaced(ReplacedAll(json, rs[..|rs| - 1], floats), rs[|rs| - 1], floats)
  }

  class Document {
    var json: Json

    constructor (json: Json)
      ensures this.json == json
    {
      this.json := json;
    }

    method ApplyReplacements(replace: seq<Replacement>, floats: Floats)
      modifies this
      ensures json == ReplacedAll(old(json), replace, floats)
    {
      for i := 0 to |replace|
        invariant json == ReplacedAll(old(json), replace[..i], floats)
      {
        var replacement := replace[i];
        if replacement.value.Some? {
          json := Updated(json, replacement.path, replacement.value.value, floats);
        }
        assert replace[..i + 1][..i] == replace[..i];
      }
      assert replace[..|replace|] == replace;
    }
  }

  /** No replaced path is a prefix of another. */
  ghost predicate Independent(rs: seq<Replacement>) {
    && (forall i :: 0 <= i < |rs| ==> rs[i].path != [])
    && (forall i, j :: 0 <= i < |rs| && 0 <= j < |rs| && i != j ==> Incomparable(rs[i].path, rs[j].path))
  }

  ghost predicate AllFit(json: Json, rs: seq<Replacement>) {
    forall i :: 0 <= i < |rs| ==> rs[i].path != [] && ParentFits(json, rs[i].path)
  }

  ghost predicate ReadsBack(json: Json, r: Replacement, floats: Floats) {
    r.value.Some? ==> Lookup(json, r.path) == Some(Typed(r.value.value, floats))
  }

  /** A path whose leaf's parent fits keeps that through an update elsewhere. */
  lemma {:induction false} FitsElsewhere(json: Json, path: Path, value: string, floats: Floats, q: Path)
    requires Incomparable(path, q) && ParentFits(json, q)
    ensures ParentFits(Updated(json, path, value, floats), q)
    decreases |path|
  {
    var updated := Updated(json, path, value, floats);
    if |q| == 1 {
      assert q[..0] == [];
    } else {
      ParentStep(json, q);
      ParentStep(updated, q);
      if path[0] == q[0] {
        IncomparableStep(path, q);
        var entry := if json.Object? then Entry(json.members, path[0]) else Object(map[]);
        if |q| > 2 {
          ParentStep(Object(map[]), q[1..]);
        }
        FitsElsewhere(entry, path[1..], value, floats, q[1..]);
      }
    }
  }

  lemma {:induction false} AllKeepFitting(json: Json, rs: seq<Replacement>, floats: Floats, all: seq<Replacement>)
    requires Independent(all) && rs <= all
    requires AllFit(json, all)
    ensures AllFit(ReplacedAll(json, rs, floats), all)
    decreases |rs|
  {
    if rs != [] {
      var init, r := rs[..|rs| - 1], rs[|rs| - 1];
      AllKeepFitting(json, init, floats, all);
      var before := ReplacedAll(json, init, floats);
      if r.value.Some? {
        forall i | 0 <= i < |all|
          ensures ParentFits(Replaced(before, r, floats), all[i].path)
        {
          if i == |rs| - 1 {
            UpdatedParentFits(before, r.path, r.value.value, floats);
          } else {
            FitsElsewhere(before, r.path, r.value.value, floats, all[i].path);
          }
        }
      }
    }
  }

  /** One pass over independent replacements whose leaf parents fit makes every one read back. */
  lemma {:induction false} PassReadsBack(json: Json, rs: seq<Replacement>, floats: Floats, all: seq<Replacement>)
    requires Independent(all) && rs <= all && AllFit(json, all)
    ensures forall i :: 0 <= i < |rs| ==> ReadsBack(ReplacedAll(json, rs, floats), rs[i], floats)
    decreases |rs|
  {
    if rs != [] {
      var init, r := rs[..|rs| - 1], rs[|rs| - 1];
      PassReadsBack(json, init, floats, all);
      AllKeepFitting(json, init, floats, all);
      var before := ReplacedAll(json, init, floats);
      if r.value.Some? {
        assert r == all[|rs| - 1];
        LookupUpdated(before, r.path, r.value.value, floats);
        forall i | 0 <= i < |init|
          ensures ReadsBack(Replaced(before, r, floats), rs[i], floats)
        {
          assert rs[i] == init[i] == all[i];
          LookupElsewhere(before, r.path, r.value.value, floats, rs[i].path);
        }
      }
    }
  }

  /** A pass over replacements that all read back changes nothing. */
  lemma {:induction false} PassOverReadBack(json: Json, rs: seq<Replacement>, floats: Floats)
    requires forall i :: 0 <= i < |rs| ==> rs[i].path != [] && ReadsBack(json, rs[i], floats)
    ensures ReplacedAll(json, rs, floats) == json
    decreases |rs|
  {
    if rs != [] {
      var init, r := rs[..|rs| - 1], rs[|rs| - 1];
      PassOverReadBack(json, init, floats);
      if r.value.Some? {
        UpdateOfTyped(json, r.path, r.value.value, floats);
      }
    }
  }

  /** Rewriting a file twice equals rewriting it once, for independent paths whose leaf parents fit. */
  lemma ReplaceTwice(json: Json, rs: seq<Replacement>, floats: Floats)
    requires Independent(rs) && AllFit(json, rs)
    ensures ReplacedAll(ReplacedAll(json, rs, floats), rs, floats) == ReplacedAll(json, rs, floats)
  {
    PassReadsBack(json, rs, floats, rs);
    PassOverReadBack(ReplacedAll(json, rs, floats), rs, floats);
  }

  /** Only replacements that resolve are written. */
  ghost predicate AllResolve(rs: seq<Replacement>) {
    forall i :: 0 <= i < |rs| ==> rs[i].value.Some?
  }

  lemma {:induction false} PassMakesFit(json: Json, rs: seq<Replacement>, floats: Floats, all: seq<Replacement>)
    requires Independent(all) && AllResolve(all) && rs <= all
    ensures forall i :: 0 <= i < |rs| ==> ParentFits(ReplacedAll(json, rs, floats), rs[i].path)
    decreases |rs|
  {
    if rs != [] {
      var init, r := rs[..|rs| - 1], rs[|rs| - 1];
      PassMakesFit(json, init, floats, all);
      var before := ReplacedAll(json, init, floats);
      assert r == all[|rs| - 1];
      UpdatedParentFits(before, r.path, r.value.value, floats);
      forall i | 0 <= i < |init|
        ensures ParentFits(Replaced(before, r, floats), rs[i].path)
      {
        assert rs[i] == init[i] == all[i];
        FitsElsewhere(before, r.path, r.value.value, floats, rs[i].path);
      }
    }
  }

  /** For independent paths that all resolve, rewriting any document a third time equals twice. */
  lemma ReplaceThrice(json: Json, rs: seq<Replacement>, floats: Floats)
    requires Independent(rs) && AllResolve(rs)
    ensures
      var twice := ReplacedAll(ReplacedAll(json, rs, floats), rs, floats);
      ReplacedAll(twice, rs, floats) == twice
  {
    PassMakesFit(json, rs, floats, rs);
    ReplaceTwice(ReplacedAll(json, rs, floats), rs, floats);
  }
}
