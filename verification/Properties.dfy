/** Rewriting a properties file line by line. */
module Properties {
  import opened Common

  // ----- text

  /** White_Space of the Unicode character database, which `trim` strips. */
  predicate IsWhitespace(c: char) {
    var n := c as int;
    || 9 <= n <= 13 || n == 32 || n == 0x85 || n == 0xA0 || n == 0x1680 || 0x2000 <= n <= 0x200A
    || n == 0x2028 || n == 0x2029 || n == 0x202F || n == 0x205F || n == 0x3000
  }

  function TrimStart(s: string): string {
    if s != [] && IsWhitespace(s[0]) then TrimStart(s[1..]) else s
  }

  function TrimEnd(s: string): string {
    if s != [] && IsWhitespace(s[|s| - 1]) then TrimEnd(s[..|s| - 1]) else s
  }

  function Trim(s: string): string {
    TrimEnd(TrimStart(s))
  }

  /** The index of the first `c`, or the length where there is none. */
  function Find(s: string, c: char): (i: nat)
    ensures i <= |s| && (i < |s| ==> s[i] == c) && c !in s[..i]
  {
    if s == [] || s[0] == c then 0 else 1 + Find(s[1..], c)
  }

  function StripReturn(s: string): string {
    if s != [] && s[|s| - 1] == '\r' then s[..|s| - 1] else s
  }

  /** The lines of a text; each ends at a newline, with a carriage return before it stripped. */
  function Lines(s: string): seq<string>
    decreases |s|
  {
    if s == [] then []
    else
      var i := Find(s, '\n');
      if i == |s| then [s] else [StripReturn(s[..i])] + Lines(s[i + 1..])
  }

  /** The lines joined by newlines, and one more newline at the end. */
  function Joined(lines: seq<string>): string {
    if |lines| == 0 then "\n"
    else if |lines| == 1 then lines[0] + "\n"
    else lines[0] + "\n" + Joined(lines[1..])
  }

  // ----- one line

  datatype Replacement = Replacement(key: string, ifValue: Option<string>, value: Option<string>)

  predicate IsComment(line: string) {
    Trim(line) == [] || Trim(line)[0] == '#'
  }

  /** The key of a key-value line. */
  function KeyOf(line: string): Option<string> {
    if IsComment(line) || Find(line, '=') == |line| then None else Some(Trim(line[..Find(line, '=')]))
  }

  function ValueOf(line: string): string
    requires KeyOf(line).Some?
  {
    line[Find(line, '=') + 1..]
  }

  function Pair(key: string, value: string): string {
    key + "=" + value
  }

  /** Does `r` rewrite a line of this key and value? */
  predicate Rewrites(r: Replacement, key: string, value: string) {
    r.key == key && (r.ifValue.Some? ==> value == r.ifValue.value) && r.value.Some?
  }

  /** The first replacement that applies rewrites the line. */
  function Rewritten(line: string, key: string, value: string, replace: seq<Replacement>): string {
    if replace == [] then line
    else if Rewrites(replace[0], key, value) then Pair(key, replace[0].value.value)
    else Rewritten(line, key, value, replace[1..])
  }

  function ProcessedLine(line: string, replace: seq<Replacement>): string {
    if KeyOf(line).None? then line else Rewritten(line, KeyOf(line).value, ValueOf(line), replace)
  }

  function ProcessedLines(lines: seq<string>, replace: seq<Replacement>): seq<string> {
    if lines == [] then []
    else ProcessedLines(lines[..|lines| - 1], replace) + [ProcessedLine(lines[|lines| - 1], replace)]
  }

  /** The keys that occur in the lines. */
  function KeysOf(lines: seq<string>): set<string> {
    if lines == [] then {}
    else
      var key := KeyOf(lines[|lines| - 1]);
      KeysOf(lines[..|lines| - 1]) + if key.Some? then {key.value} else {}
  }

  /** The lines added for the keys that do not occur. */
  function Missing(keys: set<string>, replace: seq<Replacement>): seq<string> {
    if replace == [] then []
    else
      var r := replace[|replace| - 1];
      Missing(keys, replace[..|replace| - 1]) + if r.key !in keys && r.value.Some? then [Pair(r.key, r.value.value)] else []
  }

  function OutputLines(lines: seq<string>, replace: seq<Replacement>): seq<string> {
    ProcessedLines(lines, replace) + Missing(KeysOf(lines), replace)
  }

  // ----- the file

  method ProcessLine(line: string, key: string, value: string, replace: seq<Replacement>) returns (updated: string)
    ensures updated == Rewritten(line, key, value, replace)
  {
    updated := line;
    for i := 0 to |replace|
      invariant updated == line && Rewritten(line, key, value, replace) == Rewritten(line, key, value, replace[i..])
    {
      var replacement := replace[i];
      if replacement.key == key {
        if replacement.ifValue.Some? && value != replacement.ifValue.value {
          continue;
        }
        if replacement.value.Some? {
          updated := Pair(key, replacement.value.value);
          return;
        }
      }
    }
  }

  method ProcessPropertiesFile(content: string, replace: seq<Replacement>) returns (text: string)
    ensures text == Joined(OutputLines(Lines(content), replace))
  {
    var lines := Lines(content);
    var result: seq<string>, processedKeys: set<string> := [], {};
    for i := 0 to |lines|
      invariant result == ProcessedLines(lines[..i], replace)
      invariant processedKeys == KeysOf(lines[..i])
    {
      var line := lines[i];
      assert lines[..i + 1][..i] == lines[..i];
      if IsComment(line) || Find(line, '=') == |line| {
        result := result + [line];
      } else {
        var key, value := Trim(line[..Find(line, '=')]), line[Find(line, '=') + 1..];
        processedKeys := processedKeys + {key};
        var updated := ProcessLine(line, key, value, replace);
        result := result + [updated];
      }
    }
    assert lines[..|lines|] == lines;
    for i := 0 to |replace|
      invariant result == ProcessedLines(lines, replace) + Missing(processedKeys, replace[..i])
    {
      var replacement := replace[i];
      assert replace[..i + 1][..i] == replace[..i];
      if replacement.key !in processedKeys && replacement.value.Some? {
        result := result + [Pair(replacement.key, replacement.value.value)];
      }
    }
    assert replace[..|replace|] == replace;
    text := Joined(result);
  }

  // ----- lines and text

  /** A line that survives being written out and read again. */
  predicate Stable(line: string) {
    '\n' !in line && StripReturn(line) == line
  }

  lemma LinesCons(first: string, rest: string)
    requires Stable(first)
    ensures Lines(first + ['\n'] + rest) == [first] + Lines(rest)
  {
    LinesNext(first, rest);
  }

  /** A line ends at a newline, with or without a carriage return before it; the last needs none. */
  lemma LineEnds(first: string, rest: string)
    requires '\n' !in first && (first != [] ==> first[|first| - 1] != '\r')
    ensures Lines(first + ['\n'] + rest) == [first] + Lines(rest)
    ensures Lines(first + ['\r'] + ['\n'] + rest) == [first] + Lines(rest)
    ensures first != [] ==> Lines(first) == [first]
  {
    LinesNext(first, rest);
    LinesNext(first + ['\r'], rest);
    NotFound(first, '\n');
  }

  lemma LinesNext(first: string, rest: string)
    requires '\n' !in first
    ensures Lines(first + ['\n'] + rest) == [StripReturn(first)] + Lines(rest)
  {
    var text := first + ['\n'] + rest;
    FindIn(first, '\n', rest);
    assert text[..|first|] == first && text[|first| + 1..] == rest;
  }

  lemma NotFound(s: string, c: char)
    requires c !in s
    ensures Find(s, c) == |s|
  {
  }

  lemma {:induction false} LinesOfJoined(lines: seq<string>)
    requires lines != [] && forall l :: l in lines ==> Stable(l)
    ensures Lines(Joined(lines)) == lines
    decreases |lines|
  {
    var first, rest := lines[0], if |lines| == 1 then "" else Joined(lines[1..]);
    assert Stable(first);
    LinesCons(first, rest);
    assert Joined(lines) == first + ['\n'] + rest;
    assert lines == [first] + lines[1..];
    if |lines| > 1 {
      LinesOfJoined(lines[1..]);
    }
  }

  lemma {:induction false} FindIn(before: string, c: char, after: string)
    requires c !in before
    ensures Find(before + [c] + after, c) == |before|
  {
    var s := before + [c] + after;
    var i := Find(s, c);
    assert s[|before|] == c;
    assert forall j :: 0 <= j < |before| ==> s[j] == before[j];
    assert forall j :: 0 <= j < i ==> s[j] == s[..i][j];
  }

  /** Lines read from a text hold no newline. */
  lemma {:induction false} LinesHoldNoNewline(s: string)
    ensures forall l :: l in Lines(s) ==> '\n' !in l
    decreases |s|
  {
    if s != [] {
      var i := Find(s, '\n');
      if i < |s| {
        LinesHoldNoNewline(s[i + 1..]);
        assert '\n' !in s[..i];
        assert forall c :: c in StripReturn(s[..i]) ==> c in s[..i];
      } else {
        assert s[..i] == s;
      }
    }
  }

  // ----- well-formed replacements

  /** A key that reads back from a line `key=value`. */
  predicate GoodKey(key: string) {
    && key != [] && Trim(key) == key && key[0] != '#'
    && '=' !in key && '\n' !in key
  }

  predicate GoodReplacement(r: Replacement) {
    GoodKey(r.key) && (r.value.Some? ==> '\n' !in r.value.value && StripReturn(r.value.value) == r.value.value)
  }

  ghost predicate Good(replace: seq<Replacement>) {
    && (forall i :: 0 <= i < |replace| ==> GoodReplacement(replace[i]))
    && (forall i, j :: 0 <= i < j < |replace| ==> replace[i].key != replace[j].key)
  }

  lemma TrimmedEnds(s: string)
    requires s != [] && Trim(s) == s
    ensures !IsWhitespace(s[0]) && !IsWhitespace(s[|s| - 1])
  {
    TrimStartShrinks(s);
    TrimEndShrinks(TrimStart(s));
  }

  lemma {:induction false} TrimStartShrinks(s: string)
    ensures |TrimStart(s)| <= |s|
    ensures TrimStart(s) == s <==> s == [] || !IsWhitespace(s[0])
    ensures TrimStart(s) != [] ==> !IsWhitespace(TrimStart(s)[0])
  {
    if s != [] && IsWhitespace(s[0]) {
      TrimStartShrinks(s[1..]);
    }
  }

  lemma {:induction false} TrimEndShrinks(s: string)
    ensures |TrimEnd(s)| <= |s| && TrimEnd(s) == s[..|TrimEnd(s)|]
    ensures TrimEnd(s) == s <==> s == [] || !IsWhitespace(s[|s| - 1])
    ensures s != [] && !IsWhitespace(s[0]) ==> TrimEnd(s) != []
  {
    if s != [] && IsWhitespace(s[|s| - 1]) {
      TrimEndShrinks(s[..|s| - 1]);
    }
  }

  /** A written pair reads back as its key and value. */
  lemma PairReadsBack(key: string, value: string)
    requires GoodKey(key)
    ensures KeyOf(Pair(key, value)) == Some(key) && ValueOf(Pair(key, value)) == value
  {
    var line := Pair(key, value);
    TrimmedEnds(key);
    assert line[0] == key[0];
    TrimStartShrinks(line);
    TrimEndShrinks(line);
    assert Trim(line)[0] == key[0];
    assert line == key + ['='] + value;
    FindIn(key, '=', value);
    assert line[..|key|] == key && line[|key| + 1..] == value;
  }

  lemma PairIsStable(key: string, value: string)
    requires '\n' !in key && '\n' !in value && StripReturn(value) == value
    ensures Stable(Pair(key, value))
  {
    var line := Pair(key, value);
    if value == [] {
      assert line[|line| - 1] == '=';
    } else {
      assert line[|line| - 1] == value[|value| - 1];
    }
  }

  // ----- how a line reads, by its characters

  ghost predicate IsBlank(s: string) {
    forall i :: 0 <= i < |s| ==> IsWhitespace(s[i])
  }

  predicate HasBareEnds(s: string) {
    s != [] ==> !IsWhitespace(s[0]) && !IsWhitespace(s[|s| - 1])
  }

  lemma {:induction false} TrimStartMeaning(pre: string, s: string)
    requires IsBlank(pre) && (s != [] ==> !IsWhitespace(s[0]))
    ensures TrimStart(pre + s) == s
  {
    if pre == [] {
      assert pre + s == s;
    } else {
      TrimStartMeaning(pre[1..], s);
      assert (pre + s)[1..] == pre[1..] + s;
    }
  }

  lemma {:induction false} TrimEndMeaning(s: string, post: string)
    requires IsBlank(post) && (s != [] ==> !IsWhitespace(s[|s| - 1]))
    ensures TrimEnd(s + post) == s
    decreases |post|
  {
    if post == [] {
      assert s + post == s;
    } else {
      var n := |post| - 1;
      TrimEndMeaning(s, post[..n]);
      assert (s + post)[..|s + post| - 1] == s + post[..n] && (s + post)[|s + post| - 1] == post[n];
    }
  }

  lemma {:induction false} BlankIsTrimmed(s: string)
    requires IsBlank(s)
    ensures TrimStart(s) == [] && Trim(s) == []
  {
    if s != [] {
      BlankIsTrimmed(s[1..]);
    }
  }

  /** Trimming strips the blanks on both sides. */
  lemma TrimMeaning(pre: string, s: string, post: string)
    requires IsBlank(pre) && IsBlank(post) && HasBareEnds(s)
    ensures Trim(pre + s + post) == s
  {
    if s == [] {
      assert pre + s + post == pre + post;
      BlankIsTrimmed(pre + post);
    } else {
      assert pre + s + post == pre + (s + post);
      TrimStartMeaning(pre, s + post);
      TrimEndMeaning(s, post);
    }
  }

  lemma CommentStart(pre: string, s: string)
    requires IsBlank(pre) && s != [] && !IsWhitespace(s[0])
    ensures IsComment(pre + s) <==> s[0] == '#'
  {
    TrimStartMeaning(pre, s);
    TrimEndShrinks(s);
    assert Trim(pre + s)[0] == s[0];
  }

  /** A line `key = value` has this key, without the blanks around it, and everything after the first equals
      sign as its value. */
  lemma AssignmentIsRead(pre: string, key: string, post: string, value: string)
    requires IsBlank(pre) && IsBlank(post) && HasBareEnds(key) && '=' !in key && (key != [] ==> key[0] != '#')
    ensures var line := pre + key + post + "=" + value;
            KeyOf(line) == Some(key) && ValueOf(line) == value
  {
    var left := pre + key + post;
    var line := left + "=" + value;
    NoEqualsSign(pre, key, post);
    assert line == left + ['='] + value;
    FindIn(left, '=', value);
    assert line[..|left|] == left && line[|left| + 1..] == value;
    TrimMeaning(pre, key, post);
    if key == [] {
      assert IsBlank(left);
      assert line == left + ("=" + value);
      CommentStart(left, "=" + value);
    } else {
      assert line == pre + (key + post + "=" + value);
      CommentStart(pre, key + post + "=" + value);
    }
  }

  lemma NoEqualsSign(pre: string, key: string, post: string)
    requires IsBlank(pre) && IsBlank(post) && '=' !in key
    ensures '=' !in pre + key + post
  {
    assert !IsWhitespace('=');
  }

  /** A blank line, a comment, and a line without an equals sign have no key. */
  lemma OtherLinesHaveNoKey(pre: string, rest: string, line: string)
    requires IsBlank(pre)
    ensures KeyOf(pre) == None == KeyOf(pre + "#" + rest)
    ensures '=' !in line ==> KeyOf(line) == None
  {
    BlankIsTrimmed(pre);
    assert pre + "#" + rest == pre + ("#" + rest);
    CommentStart(pre, "#" + rest);
    if Find(line, '=') < |line| {
      assert line[Find(line, '=')] in line;
    }
  }

  // ----- what rewriting does to a line

  /** Either some replacement of the line's key rewrote it, or none does and it stays. */
  lemma {:induction false} RewrittenBy(line: string, key: string, value: string, replace: seq<Replacement>)
    ensures
      || (exists i :: 0 <= i < |replace| && Rewrites(replace[i], key, value)
                      && Rewritten(line, key, value, replace) == Pair(key, replace[i].value.value))
      || (Rewritten(line, key, value, replace) == line && forall i :: 0 <= i < |replace| ==> !Rewrites(replace[i], key, value))
  {
    if replace != [] {
      if Rewrites(replace[0], key, value) {
      } else {
        RewrittenBy(line, key, value, replace[1..]);
        if i :| 0 <= i < |replace[1..]| && Rewrites(replace[1..][i], key, value)
                && Rewritten(line, key, value, replace[1..]) == Pair(key, replace[1..][i].value.value) {
          assert Rewrites(replace[i + 1], key, value);
        } else {
          assert forall i :: 0 < i < |replace| ==> replace[i] == replace[1..][i - 1];
        }
      }
    }
  }

  lemma {:induction false} FirstRewrites(
      line: string, key: string, value: string, replace: seq<Replacement>, i: nat)
    requires i < |replace| && Rewrites(replace[i], key, value)
    requires forall j :: 0 <= j < i ==> !Rewrites(replace[j], key, value)
    ensures Rewritten(line, key, value, replace) == Pair(key, replace[i].value.value)
  {
    if i > 0 {
      assert !Rewrites(replace[0], key, value);
      assert forall j :: 0 <= j < i - 1 ==> replace[1..][j] == replace[j + 1];
      FirstRewrites(line, key, value, replace[1..], i - 1);
    }
  }

  /** The first replacement of the line's key that resolves, and asks for no value or the one that stands there,
      writes its own as `key=value`. */
  lemma LineIsRewritten(line: string, replace: seq<Replacement>, i: nat)
    requires KeyOf(line).Some? && i < |replace|
    requires
      var r := replace[i];
      r.key == KeyOf(line).value && r.value.Some? && (r.ifValue.None? || r.ifValue == Some(ValueOf(line)))
    requires
      forall j :: 0 <= j < i && replace[j].key == KeyOf(line).value && replace[j].value.Some? ==>
                    replace[j].ifValue.Some? && replace[j].ifValue.value != ValueOf(line)
    ensures ProcessedLine(line, replace) == KeyOf(line).value + "=" + replace[i].value.value
  {
    FirstRewrites(line, KeyOf(line).value, ValueOf(line), replace, i);
  }

  /** A line stays as it is where it has no key, or each replacement of its key that resolves asks for another
      value. */
  lemma LineIsKept(line: string, replace: seq<Replacement>)
    requires
      KeyOf(line).Some? ==>
        forall j :: 0 <= j < |replace| && replace[j].key == KeyOf(line).value && replace[j].value.Some? ==>
                      replace[j].ifValue.Some? && replace[j].ifValue.value != ValueOf(line)
    ensures ProcessedLine(line, replace) == line
  {
    if KeyOf(line).Some? {
      RewrittenBy(line, KeyOf(line).value, ValueOf(line), replace);
    }
  }

  lemma OnlyOne(replace: seq<Replacement>, i: nat, key: string, value: string, line: string)
    requires Good(replace) && i < |replace| && replace[i].key == key
    ensures Rewritten(line, key, value, replace) == if Rewrites(replace[i], key, value) then Pair(key, replace[i].value.value) else line
  {
    RewrittenBy(line, key, value, replace);
  }

  /** A processed line keeps its key, and processing it again changes nothing. */
  lemma ProcessedLineAgain(line: string, replace: seq<Replacement>)
    requires Good(replace)
    ensures
      var out := ProcessedLine(line, replace);
      KeyOf(out) == KeyOf(line) && ProcessedLine(out, replace) == out
    ensures Stable(line) ==> Stable(ProcessedLine(line, replace))
  {
    if KeyOf(line).Some? {
      var key, value := KeyOf(line).value, ValueOf(line);
      RewrittenBy(line, key, value, replace);
      var out := ProcessedLine(line, replace);
      if i :| 0 <= i < |replace| && Rewrites(replace[i], key, value) && out == Pair(key, replace[i].value.value) {
        PairReadsBack(key, replace[i].value.value);
        PairIsStable(key, replace[i].value.value);
        OnlyOne(replace, i, key, replace[i].value.value, out);
      }
    }
  }

  /** Every line of a key whose replacement is unconditional and resolves becomes the pair. */
  lemma ProcessedLineReadsBack(line: string, replace: seq<Replacement>, i: nat)
    requires Good(replace) && i < |replace| && replace[i].ifValue.None? && replace[i].value.Some?
    requires KeyOf(line) == Some(replace[i].key)
    ensures ProcessedLine(line, replace) == Pair(replace[i].key, replace[i].value.value)
  {
    OnlyOne(replace, i, replace[i].key, ValueOf(line), line);
  }

  lemma PairAgain(replace: seq<Replacement>, i: nat)
    requires Good(replace) && i < |replace| && replace[i].value.Some?
    ensures
      var pair := Pair(replace[i].key, replace[i].value.value);
      Stable(pair) && KeyOf(pair) == Some(replace[i].key) && ProcessedLine(pair, replace) == pair
  {
    var key, value := replace[i].key, replace[i].value.value;
    PairReadsBack(key, value);
    PairIsStable(key, value);
    OnlyOne(replace, i, key, value, Pair(key, value));
  }

  // ----- what rewriting does to the file

  lemma {:induction false} ProcessedAt(lines: seq<string>, replace: seq<Replacement>)
    ensures |ProcessedLines(lines, replace)| == |lines|
    ensures forall i :: 0 <= i < |lines| ==> ProcessedLines(lines, replace)[i] == ProcessedLine(lines[i], replace)
  {
    if lines != [] {
      ProcessedAt(lines[..|lines| - 1], replace);
    }
  }

  lemma {:induction false} KeysOfMeaning(lines: seq<string>)
    ensures forall k :: k in KeysOf(lines) <==> exists i :: 0 <= i < |lines| && KeyOf(lines[i]) == Some(k)
  {
    if lines != [] {
      var init := lines[..|lines| - 1];
      KeysOfMeaning(init);
      forall k
        ensures k in KeysOf(lines) <==> exists i :: 0 <= i < |lines| && KeyOf(lines[i]) == Some(k)
      {
        if k in KeysOf(init) {
          var i :| 0 <= i < |init| && KeyOf(init[i]) == Some(k);
          assert lines[i] == init[i];
        }
        if i :| 0 <= i < |lines| && KeyOf(lines[i]) == Some(k) {
          if i < |init| {
            assert init[i] == lines[i];
          }
        }
      }
    }
  }

  /** The added lines are exactly the pairs of the resolving replacements whose key is missing. */
  lemma {:induction false} MissingMeaning(keys: set<string>, replace: seq<Replacement>)
    ensures forall l :: l in Missing(keys, replace) <==>
                          exists i :: 0 <= i < |replace| && replace[i].key !in keys && replace[i].value.Some?
                                      && l == Pair(replace[i].key, replace[i].value.value)
  {
    if replace != [] {
      var init, r := replace[..|replace| - 1], replace[|replace| - 1];
      MissingMeaning(keys, init);
      forall l
        ensures l in Missing(keys, replace) <==>
                  exists i :: 0 <= i < |replace| && replace[i].key !in keys && replace[i].value.Some?
                              && l == Pair(replace[i].key, replace[i].value.value)
      {
        if l in Missing(keys, init) {
          var i :| 0 <= i < |init| && init[i].key !in keys && init[i].value.Some? && l == Pair(init[i].key, init[i].value.value);
          assert replace[i] == init[i];
        }
        if i :| 0 <= i < |replace| && replace[i].key !in keys && replace[i].value.Some?
                && l == Pair(replace[i].key, replace[i].value.value) {
          if i < |init| {
            assert init[i] == replace[i];
          }
        }
      }
    }
  }

  /** The lines added for missing keys stand in the order of the replacements. */
  lemma {:induction false} MissingInOrder(keys: set<string>, replace: seq<Replacement>)
    requires forall i :: 0 <= i < |replace| ==> replace[i].key !in keys && replace[i].value.Some?
    ensures |Missing(keys, replace)| == |replace|
    ensures forall i :: 0 <= i < |replace| ==> Missing(keys, replace)[i] == replace[i].key + "=" + replace[i].value.value
  {
    if replace != [] {
      MissingInOrder(keys, replace[..|replace| - 1]);
    }
  }

  /** The text a rewriting writes. */
  function Processed(content: string, replace: seq<Replacement>): string {
    Joined(OutputLines(Lines(content), replace))
  }

  /** No line of the text still ends with a carriage return: true of text without any, and of text that
      ends its lines with one carriage return and one newline. */
  predicate CleanText(content: string) {
    forall l :: l in Lines(content) ==> StripReturn(l) == l
  }

  lemma OutputStable(content: string, replace: seq<Replacement>)
    requires Good(replace) && CleanText(content)
    ensures forall l :: l in OutputLines(Lines(content), replace) ==> Stable(l)
  {
    var lines := Lines(content);
    LinesHoldNoNewline(content);
    ProcessedAt(lines, replace);
    MissingMeaning(KeysOf(lines), replace);
    forall l | l in OutputLines(lines, replace)
      ensures Stable(l)
    {
      if l in ProcessedLines(lines, replace) {
        var j :| 0 <= j < |lines| && ProcessedLines(lines, replace)[j] == l;
        assert lines[j] in lines;
        ProcessedLineAgain(lines[j], replace);
      } else {
        var i :| 0 <= i < |replace| && replace[i].key !in KeysOf(lines) && replace[i].value.Some?
                 && l == Pair(replace[i].key, replace[i].value.value);
        PairAgain(replace, i);
      }
    }
  }

  /** Reading the rewritten text gives the lines written; an empty file becomes one empty line. */
  lemma ReadProcessed(content: string, replace: seq<Replacement>)
    requires Good(replace) && CleanText(content)
    ensures
      var out := OutputLines(Lines(content), replace);
      Lines(Processed(content, replace)) == if out == [] then [""] else out
  {
    OutputStable(content, replace);
    var out := OutputLines(Lines(content), replace);
    if out != [] {
      LinesOfJoined(out);
    } else {
      assert "\n"[..0] == "" && "\n"[1..] == "";
      assert Find("\n", '\n') == 0;
      assert Lines("") == [];
    }
  }

  lemma PairOccurs(lines: seq<string>, replace: seq<Replacement>, i: nat)
    requires Good(replace) && i < |replace| && replace[i].ifValue.None? && replace[i].value.Some?
    ensures Pair(replace[i].key, replace[i].value.value) in OutputLines(lines, replace)
  {
    var pair := Pair(replace[i].key, replace[i].value.value);
    KeysOfMeaning(lines);
    if replace[i].key in KeysOf(lines) {
      var j :| 0 <= j < |lines| && KeyOf(lines[j]) == Some(replace[i].key);
      ProcessedLineReadsBack(lines[j], replace, i);
      ProcessedAt(lines, replace);
      assert ProcessedLines(lines, replace)[j] == pair;
    } else {
      MissingMeaning(KeysOf(lines), replace);
      assert pair in Missing(KeysOf(lines), replace);
    }
  }

  lemma OnlyPair(lines: seq<string>, replace: seq<Replacement>, i: nat, l: string)
    requires Good(replace) && i < |replace| && replace[i].ifValue.None? && replace[i].value.Some?
    requires l in OutputLines(lines, replace) && KeyOf(l) == Some(replace[i].key)
    ensures l == Pair(replace[i].key, replace[i].value.value)
  {
    var processed := ProcessedLines(lines, replace);
    if l in processed {
      ProcessedAt(lines, replace);
      var j :| 0 <= j < |lines| && processed[j] == l;
      ProcessedLineAgain(lines[j], replace);
      ProcessedLineReadsBack(lines[j], replace, i);
    } else {
      MissingMeaning(KeysOf(lines), replace);
      var k :| 0 <= k < |replace| && replace[k].key !in KeysOf(lines) && replace[k].value.Some?
               && l == Pair(replace[k].key, replace[k].value.value);
      PairAgain(replace, k);
    }
  }

  /** Every unconditional replacement that resolves reads back: its pair occurs, and no line gives its
      key another value. */
  lemma EveryKeyReadsBack(content: string, replace: seq<Replacement>, i: nat)
    requires Good(replace) && CleanText(content)
    requires i < |replace| && replace[i].ifValue.None? && replace[i].value.Some?
    ensures
      var pair, out := replace[i].key + "=" + replace[i].value.value, Lines(Processed(content, replace));
      && pair in out
      && forall l :: l in out && KeyOf(l) == Some(replace[i].key) ==> l == pair
  {
    var lines := Lines(content);
    ReadProcessed(content, replace);
    PairOccurs(lines, replace, i);
    forall l | l in OutputLines(lines, replace) && KeyOf(l) == Some(replace[i].key)
      ensures l == Pair(replace[i].key, replace[i].value.value)
    {
      OnlyPair(lines, replace, i, l);
    }
  }

  /** The lines of keys no replacement names, and the lines without a key. */
  function Others(lines: seq<string>, keys: set<string>): seq<string> {
    if lines == [] then []
    else
      var l := lines[|lines| - 1];
      Others(lines[..|lines| - 1], keys) + if KeyOf(l).Some? && KeyOf(l).value in keys then [] else [l]
  }

  function ReplacedKeys(replace: seq<Replacement>): set<string> {
    set i | 0 <= i < |replace| :: replace[i].key
  }

  lemma {:induction false} OthersAppend(a: seq<string>, b: seq<string>, keys: set<string>)
    ensures Others(a + b, keys) == Others(a, keys) + Others(b, keys)
    decreases |b|
  {
    if b == [] {
      assert a + b == a;
    } else {
      OthersAppend(a, b[..|b| - 1], keys);
      assert (a + b)[..|a + b| - 1] == a + b[..|b| - 1];
    }
  }

  lemma {:induction false} OthersOfProcessed(lines: seq<string>, replace: seq<Replacement>)
    requires Good(replace)
    ensures Others(ProcessedLines(lines, replace), ReplacedKeys(replace)) == Others(lines, ReplacedKeys(replace))
  {
    if lines != [] {
      var l := lines[|lines| - 1];
      OthersOfProcessed(lines[..|lines| - 1], replace);
      ProcessedLineAgain(l, replace);
      if KeyOf(l).Some? && KeyOf(l).value !in ReplacedKeys(replace) {
        RewrittenBy(l, KeyOf(l).value, ValueOf(l), replace);
      }
    }
  }

  lemma {:induction false} OthersOfMissing(keys: set<string>, replace: seq<Replacement>, all: seq<Replacement>)
    requires Good(all) && replace <= all
    ensures Others(Missing(keys, replace), ReplacedKeys(all)) == []
  {
    if replace != [] {
      var init, r := replace[..|replace| - 1], replace[|replace| - 1];
      OthersOfMissing(keys, init, all);
      assert r == all[|replace| - 1];
      if r.key !in keys && r.value.Some? {
        var pair := Pair(r.key, r.value.value);
        PairAgain(all, |replace| - 1);
        OthersAppend(Missing(keys, init), [pair], ReplacedKeys(all));
        assert Others([pair], ReplacedKeys(all)) == [] by {
          assert [pair][..0] == [];
        }
      } else {
        assert Missing(keys, init) + [] == Missing(keys, init);
      }
    }
  }

  /** All other lines survive, in their order. */
  lemma OtherLinesSurvive(content: string, replace: seq<Replacement>)
    requires Good(replace) && CleanText(content) && content != []
    ensures Others(Lines(Processed(content, replace)), ReplacedKeys(replace)) == Others(Lines(content), ReplacedKeys(replace))
  {
    var lines := Lines(content);
    ReadProcessed(content, replace);
    ProcessedAt(lines, replace);
    OthersAppend(ProcessedLines(lines, replace), Missing(KeysOf(lines), replace), ReplacedKeys(replace));
    OthersOfProcessed(lines, replace);
    OthersOfMissing(KeysOf(lines), replace, replace);
  }

  /** Processing the lines written changes none of them and misses no key. */
  lemma OutputAgain(lines: seq<string>, replace: seq<Replacement>)
    requires Good(replace)
    ensures
      var out := OutputLines(lines, replace);
      OutputLines(out, replace) == out
  {
    var out := OutputLines(lines, replace);
    ProcessedAt(lines, replace);
    ProcessedAt(out, replace);
    MissingMeaning(KeysOf(lines), replace);
    KeysOfMeaning(lines);
    KeysOfMeaning(out);
    forall j | 0 <= j < |out|
      ensures ProcessedLine(out[j], replace) == out[j]
    {
      if j < |lines| {
        ProcessedLineAgain(lines[j], replace);
      } else {
        assert out[j] == Missing(KeysOf(lines), replace)[j - |lines|];
        assert out[j] in Missing(KeysOf(lines), replace);
        var i :| 0 <= i < |replace| && replace[i].key !in KeysOf(lines) && replace[i].value.Some?
                 && out[j] == Pair(replace[i].key, replace[i].value.value);
        PairAgain(replace, i);
      }
    }
    assert ProcessedLines(out, replace) == out;
    forall i | 0 <= i < |replace| && replace[i].value.Some?
      ensures replace[i].key in KeysOf(out)
    {
      KeyOccurs(lines, replace, i);
    }
    NothingMissing(KeysOf(out), replace);
  }

  lemma KeyOccurs(lines: seq<string>, replace: seq<Replacement>, i: nat)
    requires Good(replace) && i < |replace| && replace[i].value.Some?
    ensures replace[i].key in KeysOf(OutputLines(lines, replace))
  {
    var out := OutputLines(lines, replace);
    ProcessedAt(lines, replace);
    MissingMeaning(KeysOf(lines), replace);
    KeysOfMeaning(lines);
    KeysOfMeaning(out);
    if replace[i].key in KeysOf(lines) {
      var j :| 0 <= j < |lines| && KeyOf(lines[j]) == Some(replace[i].key);
      ProcessedLineAgain(lines[j], replace);
      assert KeyOf(out[j]) == Some(replace[i].key);
    } else {
      var pair := Pair(replace[i].key, replace[i].value.value);
      PairAgain(replace, i);
      assert pair in Missing(KeysOf(lines), replace);
      assert pair in out;
      var j :| 0 <= j < |out| && out[j] == pair;
      assert KeyOf(out[j]) == Some(replace[i].key);
    }
  }

  lemma {:induction false} NothingMissing(keys: set<string>, replace: seq<Replacement>)
    requires forall i :: 0 <= i < |replace| && replace[i].value.Some? ==> replace[i].key in keys
    ensures Missing(keys, replace) == []
  {
    if replace != [] {
      NothingMissing(keys, replace[..|replace| - 1]);
    }
  }

  /** Rewriting a file twice equals rewriting it once, conditional replacements included. */
  lemma RewriteTwice(content: string, replace: seq<Replacement>)
    requires Good(replace) && CleanText(content)
    ensures Processed(Processed(content, replace), replace) == Processed(content, replace)
  {
    var out := OutputLines(Lines(content), replace);
    ReadProcessed(content, replace);
    if out == [] {
      ProcessedAt(Lines(content), replace);
      assert Lines(content) == [];
      assert Missing({}, replace) == [];
      EmptyLine(replace);
    } else {
      OutputAgain(Lines(content), replace);
    }
  }

  lemma EmptyLine(replace: seq<Replacement>)
    requires Missing({}, replace) == []
    ensures OutputLines([""], replace) == [""]
  {
    assert KeyOf("").None?;
    assert [""][..0] == [];
    assert ProcessedLines([], replace) == [];
    assert KeysOf([""]) == {};
  }
}
