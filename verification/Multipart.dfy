/** The names of the parts of a multipart RAR archive. A name is the last component of a path. */
module Multipart {
  import opened Common

  // ----- extensions of a file name

  predicate Dotless(s: string) {
    forall i :: 0 <= i < |s| ==> s[i] != '.'
  }

  /** The index of the last dot, or the length where there is none. */
  function LastDot(s: string): (k: nat)
    ensures k <= |s|
    ensures k < |s| ==> s[k] == '.' && Dotless(s[k + 1..])
    ensures k == |s| ==> Dotless(s)
  {
    if s == [] then 0
    else if s[|s| - 1] == '.' then |s| - 1
    else
      var k := LastDot(s[..|s| - 1]);
      assert s == s[..|s| - 1] + [s[|s| - 1]];
      if k == |s| - 1 then |s| else (assert s[k + 1..] == s[..|s| - 1][k + 1..] + [s[|s| - 1]]; k)
  }

  /** `..` has no extension, and a dot in front starts none. */
  function Extension(name: string): Option<string> {
    var k := LastDot(name);
    if name == ".." || k == |name| || k == 0 then None else Some(name[k + 1..])
  }

  function FileStem(name: string): string {
    if Extension(name).None? then name else name[..LastDot(name)]
  }

  /** `.` and `..` name no file, so they take no extension. */
  predicate NamesFile(stem: string) {
    stem != "." && stem != ".."
  }

  function WithExtension(stem: string, ext: string): string {
    if !NamesFile(stem) then stem else FileStem(stem) + (if ext == "" then "" else "." + ext)
  }

  /** The last extension, with the one before it where there are two. */
  function RarExtension(name: string): Option<string> {
    match Extension(name)
    case None => None
    case Some(ext) =>
      match Extension(FileStem(name))
      case None => Some("." + ext)
      case Some(pre) => Some("." + pre + "." + ext)
  }

  // ----- the pattern of a part

  /** What stands before the digits: `.part`, `.r` or a dot alone. */
  datatype Head = PartWord | R | Dot

  datatype Captures = Captures(head: Head, digits: string, rar: bool)

  function HeadText(h: Head): (t: string)
    ensures t != "" && t[0] == '.' && Dotless(t[1..])
  {
    match h
    case PartWord => ".part"
    case R => ".r"
    case Dot => "."
  }

  function TailText(rar: bool): (t: string)
    ensures rar ==> |t| == 4 && t[0] == '.' && t[3] == 'r'
    ensures !rar ==> t == ""
  {
    if rar then ".rar" else ""
  }

  function CountDigits(s: string): (n: nat)
    ensures n <= |s| && AllDigits(s[..n])
    ensures n < |s| ==> !IsDigit(s[n])
  {
    if s == [] || !IsDigit(s[0]) then 0
    else
      var n := CountDigits(s[1..]);
      assert s[..n + 1] == [s[0]] + s[1..][..n];
      n + 1
  }

  function HeadOf(s: string): (head: Option<Head>)
    ensures head.Some? ==> HeadText(head.value) <= s
  {
    if ".part" <= s then Some(PartWord) else if ".r" <= s then Some(R) else if "." <= s then Some(Dot) else None
  }

  function TailOf(s: string): (rar: Option<bool>)
    ensures rar.Some? <==> s == "" || s == ".rar"
    ensures rar.Some? ==> s == TailText(rar.value)
  {
    if s == "" then Some(false) else if s == ".rar" then Some(true) else None
  }

  /** The pattern matched at the front of the text: `.part`, `.r` or a dot, digits, and perhaps `.rar`, to
      the end of the text. */
  function MatchAt(s: string): (c: Option<Captures>)
    ensures c.Some? ==> IsMatch(c.value) && Text(c.value) == s
  {
    var head := HeadOf(s);
    if head.None? then None
    else
      var rest := s[|HeadText(head.value)|..];
      var n := CountDigits(rest);
      var tail := TailOf(rest[n..]);
      if n == 0 || tail.None? then None
      else
        assert s == HeadText(head.value) + rest && rest == rest[..n] + rest[n..];
        Some(Captures(head.value, rest[..n], tail.value))
  }

  /** The leftmost match. */
  function Find(s: string): Option<Captures> {
    if s == [] then None
    else if MatchAt(s).Some? then MatchAt(s)
    else Find(s[1..])
  }

  function Text(c: Captures): string {
    HeadText(c.head) + c.digits + TailText(c.rar)
  }

  // ----- other parts

  /** Every occurrence is replaced, from the left. */
  function Replace(s: string, t: string, t': string): string
    requires t != ""
  {
    if s == [] then []
    else if t <= s then t' + Replace(s[|t|..], t, t')
    else [s[0]] + Replace(s[1..], t, t')
  }

  function Zeros(n: int): (s: string)
    ensures |s| == (if n < 0 then 0 else n) && AllDigits(s)
  {
    if n <= 0 then [] else seq(n, _ => '0')
  }

  /** Padded with zeros to the width, a sign included. */
  function Padded(n: int, width: nat): string {
    if n < 0 then "-" + Zeros(width - 1 - |Decimal(-n)|) + Decimal(-n)
    else Zeros(width - |Decimal(n)|) + Decimal(n)
  }

  /** The glob of a number: a question mark for each digit. */
  function Questions(n: nat): (s: string)
    ensures |s| == n && forall i :: 0 <= i < n ==> s[i] == '?'
  {
    seq(n, _ => '?')
  }

  /** The name with another text for the part's number. */
  function Renumbered(name: string, c: Captures, number: string): string
    requires RarExtension(name).Some? && Text(c) != ""
  {
    Rewritten(FileStem(name), RarExtension(name).value, c, number)
  }

  function Rewritten(stem: string, ext: string, c: Captures, number: string): string
    requires Text(c) != ""
  {
    var ext' := Replace(ext, Text(c), Text(c.(digits := number)));
    WithExtension(stem, if ext' == [] then [] else ext'[1..])
  }

  function Part(name: string): (c: Option<Captures>)
    ensures c.Some? ==> RarExtension(name).Some? && 0 < |Text(c.value)| <= |RarExtension(name).value|
  {
    match RarExtension(name)
    case None => None
    case Some(ext) => FindMeaning(ext); Find(ext)
  }

  function NthPart(name: string, n: int): Option<string> {
    match Part(name)
    case None => None
    case Some(c) => Some(Renumbered(name, c, Padded(n, |c.digits|)))
  }

  function AllPartsOption(name: string): Option<string> {
    match Part(name)
    case None => None
    case Some(c) => Some(Renumbered(name, c, Questions(|c.digits|)))
  }

  // ----- matching

  predicate IsMatch(c: Captures) {
    c.digits != "" && AllDigits(c.digits)
  }

  lemma {:induction false} FindMeaning(s: string)
    ensures Find(s).Some? ==> IsMatch(Find(s).value) && 0 < |Text(Find(s).value)| <= |s|
  {
    if s != [] {
      FindMeaning(s[1..]);
    }
  }

  lemma {:induction false} CountDigitsOf(digits: string, tail: string)
    requires AllDigits(digits) && (tail == "" || !IsDigit(tail[0]))
    ensures CountDigits(digits + tail) == |digits|
  {
    if digits == "" {
      assert digits + tail == tail;
    } else {
      assert (digits + tail)[1..] == digits[1..] + tail;
      CountDigitsOf(digits[1..], tail);
    }
  }

  lemma HeadOfText(h: Head, rest: string)
    requires rest != "" && IsDigit(rest[0])
    ensures HeadOf(HeadText(h) + rest) == Some(h)
  {
    var s, n := HeadText(h) + rest, |HeadText(h)|;
    assert s[..n] == HeadText(h) && s[n] == rest[0];
    if ".part" <= s { assert s[1] == 'p'; }
    if ".r" <= s { assert s[1] == 'r'; }
  }

  lemma MatchText(c: Captures)
    requires IsMatch(c)
    ensures MatchAt(Text(c)) == Some(c)
  {
    var head, tail := HeadText(c.head), TailText(c.rar);
    var rest := c.digits + tail;
    assert Text(c) == head + rest;
    HeadOfText(c.head, rest);
    CountDigitsOf(c.digits, tail);
    assert Text(c)[|head|..] == rest;
    assert rest[..|c.digits|] == c.digits && rest[|c.digits|..] == tail;
  }

  lemma {:induction false} FindAfter(pre: string, rest: string)
    requires Dotless(pre)
    ensures Find(pre + rest) == Find(rest)
  {
    if pre == "" {
      assert pre + rest == rest;
    } else {
      assert (pre + rest)[1..] == pre[1..] + rest;
      FindAfter(pre[1..], rest);
    }
  }

  /** A match starts with a dot; another can only start its `.rar`, and then it ends in no digit. */
  lemma TextMeaning(c: Captures)
    requires IsMatch(c)
    ensures var t := Text(c);
            && |t| > 1 && t[0] == '.'
            && (!c.rar ==> Dotless(t[1..]) && IsDigit(t[|t| - 1]))
            && (c.rar ==> !Dotless(t[1..]) && !IsDigit(t[|t| - 1]))
  {
    var t, head := Text(c), HeadText(c.head);
    var n := |head|;
    if c.rar {
      assert t[|t| - 1] == 'r' && t[1..][|t| - 5] == '.';
    } else {
      forall i | 1 <= i < |t| ensures t[i] != '.' {
        assert t[i] == if i < n then head[1..][i - 1] else c.digits[i - n];
      }
    }
  }

  /** A text of two dots that ends in a digit does not match at its front. */
  lemma NoMatchAcrossDots(pre: string, c: Captures)
    requires IsMatch(c) && !c.rar
    ensures MatchAt("." + pre + Text(c)).None?
  {
    var s := "." + pre + Text(c);
    TextMeaning(c);
    if MatchAt(s).Some? {
      TextMeaning(MatchAt(s).value);
      SecondDot(pre, Text(c));
    }
  }

  lemma SecondDot(pre: string, t: string)
    requires t != "" && t[0] == '.'
    ensures !Dotless(("." + pre + t)[1..]) && ("." + pre + t)[|pre| + |t|] == t[|t| - 1]
  {
    assert ("." + pre + t)[1..][|pre|] == '.';
  }

  // ----- a name taken apart

  /** A name of a part: what stands before the extensions, the extension before the match if the match
      does not take it in, and the match. */
  datatype View = View(base: string, front: string, c: Captures)

  function Name(v: View): string {
    v.base + v.front + Text(v.c)
  }

  predicate IsView(v: View) {
    && v.base != "" && IsMatch(v.c)
    && (v.front != "" ==>
          !v.c.rar && v.front[0] == '.' && Dotless(v.front[1..]) && v.base + v.front != "..")
    && (v.front == "" && !v.c.rar ==> Extension(v.base).None? && NamesFile(v.base))
  }

  lemma ExtensionOf(base: string, ext: string)
    requires base != "" && Dotless(ext) && base + "." + ext != ".."
    ensures Extension(base + "." + ext) == Some(ext) && FileStem(base + "." + ext) == base
  {
    var name := base + "." + ext;
    LastDotOf(base, ext);
    assert name[|base| + 1..] == ext && name[..|base|] == base;
  }

  lemma {:induction false} LastDotOf(base: string, ext: string)
    requires Dotless(ext)
    ensures LastDot(base + "." + ext) == |base|
  {
    if ext == "" {
      assert base + "." + ext == base + ".";
    } else {
      var init := ext[..|ext| - 1];
      LastDotOf(base, init);
      assert (base + "." + ext)[..|base| + |ext|] == base + "." + init;
    }
  }

  lemma TwoExtensions(base: string, pre: string, ext: string)
    requires base != "" && Dotless(pre) && Dotless(ext) && ext != "" && base + "." + pre != ".."
    ensures var name := base + "." + pre + "." + ext;
            && RarExtension(name) == Some("." + pre + "." + ext)
            && FileStem(FileStem(name)) == base && NamesFile(FileStem(name))
  {
    ExtensionOf(base + "." + pre, ext);
    ExtensionOf(base, pre);
  }

  lemma OneExtension(base: string, ext: string)
    requires base != "" && Extension(base).None? && NamesFile(base) && Dotless(ext) && ext != ""
    ensures var name := base + "." + ext;
            && RarExtension(name) == Some("." + ext)
            && FileStem(FileStem(name)) == base && NamesFile(FileStem(name))
  {
    ExtensionOf(base, ext);
  }

  lemma FoundHere(c: Captures)
    requires IsMatch(c)
    ensures Find(Text(c)) == Some(c)
  {
    MatchText(c);
  }

  /** A view is read back from its name. */
  lemma ViewOfName(v: View)
    requires IsView(v)
    ensures RarExtension(Name(v)) == Some(v.front + Text(v.c)) && Part(Name(v)) == Some(v.c)
    ensures FileStem(FileStem(Name(v))) == v.base && NamesFile(FileStem(Name(v)))
  {
    if v.front != "" {
      AcrossDots(v);
    } else {
      FoundHere(v.c);
      assert v.front + Text(v.c) == Text(v.c);
      if !v.c.rar {
        OneDot(v);
      } else {
        WholeMatch(v);
      }
    }
  }

  lemma OneDot(v: View)
    requires IsView(v) && v.front == "" && !v.c.rar
    ensures RarExtension(Name(v)) == Some(Text(v.c))
    ensures FileStem(FileStem(Name(v))) == v.base && NamesFile(FileStem(Name(v)))
  {
    var t := Text(v.c);
    TextMeaning(v.c);
    assert t == "." + t[1..];
    assert Name(v) == v.base + "." + t[1..];
    OneExtension(v.base, t[1..]);
  }

  lemma AcrossDots(v: View)
    requires IsView(v) && v.front != ""
    ensures RarExtension(Name(v)) == Some(v.front + Text(v.c))
    ensures Find(v.front + Text(v.c)) == Some(v.c)
    ensures FileStem(FileStem(Name(v))) == v.base && NamesFile(FileStem(Name(v)))
  {
    var t, pre := Text(v.c), v.front[1..];
    TextMeaning(v.c);
    SpellOut(v.base, v.front, t);
    TwoExtensions(v.base, pre, t[1..]);
    FoundAfterDots(pre, v.c, v.front + t);
  }

  lemma SpellOut(base: string, front: string, t: string)
    requires front != "" && front[0] == '.' && t != "" && t[0] == '.'
    ensures base + front + t == base + "." + front[1..] + "." + t[1..]
    ensures base + front == base + "." + front[1..]
    ensures front + t == "." + front[1..] + "." + t[1..] == "." + front[1..] + t
  {
    assert front == "." + front[1..] && t == "." + t[1..];
  }

  lemma FoundAfterDots(pre: string, c: Captures, s: string)
    requires IsMatch(c) && !c.rar && Dotless(pre) && s == "." + pre + Text(c)
    ensures Find(s) == Some(c)
  {
    NoMatchAcrossDots(pre, c);
    Associative(".", pre, Text(c));
    FindNext(s, pre + Text(c));
    FindAfter(pre, Text(c));
    FoundHere(c);
  }

  lemma Associative(a: string, b: string, c: string)
    ensures a + b + c == a + (b + c)
  {}

  lemma FindNext(s: string, rest: string)
    requires s == "." + rest && MatchAt(s).None?
    ensures Find(s) == Find(rest)
  {
    assert s[1..] == rest;
  }

  lemma WholeMatch(v: View)
    requires IsView(v) && v.front == "" && v.c.rar
    ensures RarExtension(Name(v)) == Some(Text(v.c))
    ensures FileStem(FileStem(Name(v))) == v.base && NamesFile(FileStem(Name(v)))
  {
    var numbered := HeadText(v.c.head) + v.c.digits;
    var pre := numbered[1..];
    TextMeaning(v.c.(rar := false));
    assert Text(v.c.(rar := false)) == numbered == "." + pre;
    assert Text(v.c) == "." + pre + "." + "rar";
    assert Name(v) == v.base + "." + pre + "." + "rar";
    TwoExtensions(v.base, pre, "rar");
  }

  lemma Split(name: string)
    requires Extension(name).Some?
    ensures LastDot(name) > 0 && Dotless(Extension(name).value)
    ensures name == FileStem(name) + "." + Extension(name).value && FileStem(name) != ""
  {
    var k := LastDot(name);
    assert name == name[..k] + [name[k]] + name[k + 1..];
  }

  lemma FindOneDot(ext: string)
    requires Dotless(ext)
    ensures var c := Find("." + ext);
            c.Some? ==> IsMatch(c.value) && Text(c.value) == "." + ext && !c.value.rar
  {
    assert ("." + ext)[1..] == ext + "";
    FindAfter(ext, "");
    if MatchAt("." + ext).Some? {
      TextMeaning(MatchAt("." + ext).value);
    }
  }

  lemma FindTwoDots(s: string, pre: string, ext: string)
    requires Dotless(pre) && Dotless(ext) && s == "." + pre + "." + ext
    ensures var c := Find(s);
            c.Some? ==> IsMatch(c.value) && Text(c.value) == if c.value.rar then s else "." + ext
  {
    var t := "." + ext;
    assert s == "." + pre + t == "." + (pre + t);
    if MatchAt(s).None? {
      FindNext(s, pre + t);
      FindAfter(pre, t);
      FindOneDot(ext);
    } else {
      FoundWhole(s, MatchAt(s).value, pre, t);
    }
  }

  lemma FoundWhole(s: string, c: Captures, pre: string, t: string)
    requires MatchAt(s) == Some(c) && s == "." + pre + t && t != "" && t[0] == '.'
    ensures Find(s) == Some(c) && c.rar
  {
    TextMeaning(c);
    SecondDot(pre, t);
  }

  /** What stands before the match in the extensions. */
  function Front(name: string): string
    requires Part(name).Some?
  {
    var full := RarExtension(name).value;
    full[..|full| - |Text(Part(name).value)|]
  }

  function ViewOf(name: string): View
    requires Part(name).Some?
  {
    View(FileStem(FileStem(name)), Front(name), Part(name).value)
  }

  /** The name of a part is that of its view, unless nothing but `.` or `..` stands before it. */
  lemma NameOfView(name: string)
    requires Part(name).Some? && NamesFile(FileStem(name))
    ensures IsView(ViewOf(name)) && Name(ViewOf(name)) == name
  {
    var stem, ext, c := FileStem(name), Extension(name).value, Part(name).value;
    Split(name);
    if Extension(stem).None? {
      FindOneDot(ext);
      OneDotView(stem, ext, c, Front(name));
    } else {
      TwoDotName(name, stem, Extension(stem).value, ext, c);
    }
  }

  lemma TwoDotName(name: string, stem: string, pre: string, ext: string, c: Captures)
    requires Part(name) == Some(c) && Dotless(ext) && NamesFile(stem) && Extension(stem) == Some(pre)
    requires name == stem + "." + ext && RarExtension(name) == Some("." + pre + "." + ext)
    ensures var v := View(FileStem(stem), Front(name), c); IsView(v) && Name(v) == name
  {
    Split(stem);
    FindTwoDots("." + pre + "." + ext, pre, ext);
    TwoDotView(FileStem(stem), pre, ext, c, Front(name));
  }

  lemma OneDotView(base: string, ext: string, c: Captures, front: string)
    requires base != "" && Extension(base).None? && NamesFile(base)
    requires IsMatch(c) && !c.rar && Text(c) == "." + ext && front == ""
    ensures IsView(View(base, front, c)) && Name(View(base, front, c)) == base + "." + ext
  {
    assert base + front + ("." + ext) == base + "." + ext;
  }

  lemma TwoDotView(base: string, pre: string, ext: string, c: Captures, front: string)
    requires Dotless(pre) && base != "" && base + "." + pre != ".."
    requires IsMatch(c) && Text(c) == (if !c.rar then "." + ext else "." + pre + "." + ext)
    requires |Text(c)| <= |"." + pre + "." + ext|
    requires front == ("." + pre + "." + ext)[..|"." + pre + "." + ext| - |Text(c)|]
    ensures IsView(View(base, front, c)) && Name(View(base, front, c)) == base + "." + pre + "." + ext
  {
    if c.rar {
      assert front == "";
      assert base + front + ("." + pre + "." + ext) == base + "." + pre + "." + ext;
    } else {
      assert front == "." + pre;
      assert base + front == base + "." + pre;
      assert base + front + ("." + ext) == base + "." + pre + "." + ext;
    }
  }

  // ----- renumbering a view

  lemma {:induction false} ReplaceAfter(d: string, t: string, t': string)
    requires Dotless(d) && t != "" && t[0] == '.'
    ensures Replace(d + t, t, t') == d + t'
  {
    if d == "" {
      assert d + t == t && t[|t|..] == "";
      assert Replace("", t, t') == "";
      assert t' + "" == t' == d + t';
    } else {
      var s := d + t;
      assert s[0] == d[0] && s[1..] == d[1..] + t;
      ReplaceAfter(d[1..], t, t');
      assert d + t' == [d[0]] + (d[1..] + t');
    }
  }

  /** The text in front of the match, where it is rewritten too if it starts like the match. */
  function Fronted(front: string, t: string, t': string): string {
    if t <= front then t' + front[|t|..] else front
  }

  lemma ReplaceView(front: string, t: string, t': string)
    requires |t| > 1 && t[0] == '.'
    requires front != "" ==> front[0] == '.' && Dotless(front[1..]) && Dotless(t[1..])
    ensures Replace(front + t, t, t') == Fronted(front, t, t') + t'
  {
    if front == "" {
      assert front + t == "" + t && "" + t' == t';
      ReplaceAfter("", t, t');
    } else if t <= front {
      ReplaceBoth(front, front[|t|..], t, t');
    } else {
      ReplaceLast(front, t, t');
    }
  }

  lemma ReplaceBoth(front: string, rest: string, t: string, t': string)
    requires |t| > 1 && t[0] == '.' && front == t + rest && Dotless(front[1..])
    ensures Replace(front + t, t, t') == t' + rest + t'
  {
    assert forall i :: 0 <= i < |rest| ==> rest[i] == front[1..][|t| - 1 + i];
    Associative(t, rest, t);
    assert (t + (rest + t))[|t|..] == rest + t;
    ReplaceAfter(rest, t, t');
    Associative(t', rest, t');
  }

  lemma ReplaceLast(front: string, t: string, t': string)
    requires |t| > 1 && t[0] == '.' && Dotless(t[1..]) && !(t <= front)
    requires front != "" && Dotless(front[1..])
    ensures Replace(front + t, t, t') == front + t'
  {
    NoEarlierMatch(front, t);
    HeadFirst(front, t);
    HeadFirst(front, t');
    ReplaceNext(front + t, front[0], front[1..] + t, t, t');
    ReplaceAfter(front[1..], t, t');
  }

  lemma HeadFirst(s: string, t: string)
    requires s != ""
    ensures s + t == [s[0]] + (s[1..] + t)
  {}

  lemma ReplaceNext(s: string, c: char, rest: string, t: string, t': string)
    requires t != "" && s == [c] + rest && !(t <= s)
    ensures Replace(s, t, t') == [c] + Replace(rest, t, t')
  {
    assert s[1..] == rest;
  }

  lemma NoEarlierMatch(front: string, t: string)
    requires front != "" && |t| > 1 && t[0] == '.' && Dotless(t[1..]) && !(t <= front)
    ensures !(t <= front + t)
  {
    assert (front + t)[|front|] == '.';
    assert |front| < |t| ==> t[|front|] == t[1..][|front| - 1];
    assert |t| <= |front| ==> (front + t)[..|t|] == front[..|t|];
  }

  function WithNumber(v: View, number: string): View {
    var c := v.c.(digits := number);
    View(v.base, Fronted(v.front, Text(v.c), Text(c)), c)
  }

  lemma RenumberedView(v: View, number: string)
    requires IsView(v) && number != ""
    ensures Part(Name(v)) == Some(v.c)
    ensures Renumbered(Name(v), v.c, number) == Name(WithNumber(v, number))
  {
    ViewOfName(v);
    RewrittenView(v, FileStem(Name(v)), number);
  }

  lemma RewrittenView(v: View, stem: string, number: string)
    requires IsView(v) && number != "" && NamesFile(stem) && FileStem(stem) == v.base
    ensures Text(v.c) != "" && Rewritten(stem, v.front + Text(v.c), v.c, number) == Name(WithNumber(v, number))
  {
    TextMeaning(v.c);
    var t, t' := Text(v.c), Text(v.c.(digits := number));
    ReplaceView(v.front, t, t');
    NumberText(v.c, number);
    Extended(stem, v.base, Fronted(v.front, t, t'), t');
  }

  lemma NumberText(c: Captures, number: string)
    requires number != ""
    ensures var t := Text(c.(digits := number)); |t| > 1 && t[0] == '.'
  {}

  lemma Extended(stem: string, base: string, front: string, t: string)
    requires NamesFile(stem) && FileStem(stem) == base
    requires |t| > 1 && t[0] == '.' && (front == "" || front[0] == '.')
    ensures WithExtension(stem, (front + t)[1..]) == base + front + t
  {
    assert front + t == "." + (front + t)[1..];
    assert base + front + t == base + (front + t);
  }

  lemma NumberedIsView(v: View, number: string)
    requires IsView(v) && number != "" && AllDigits(number)
    ensures IsView(WithNumber(v, number))
  {
    var v' := WithNumber(v, number);
    TextMeaning(v.c);
    TextMeaning(v'.c);
    if v'.front != v.front {
      var t, t' := Text(v.c), Text(v'.c);
      var rest := v.front[|t|..];
      assert forall i :: 0 <= i < |rest| ==> rest[i] == v.front[1..][|t| - 1 + i];
      assert v'.front[1..] == t'[1..] + rest;
    }
  }

  /** Rewriting a front twice is rewriting it once, unless the first rewriting made it match. */
  lemma FrontedTwice(front: string, t: string, t1: string, t2: string)
    ensures Fronted(Fronted(front, t, t1), t1, t2) == Fronted(front, t, t2)
       <==> t2 == t1 || t <= front || !(t1 <= front)
  {
    if t <= front {
      assert (t1 + front[|t|..])[|t1|..] == front[|t|..];
    } else if t1 <= front {
      assert front == t1 + front[|t1|..];
      if t2 + front[|t1|..] == front {
        assert |t2| == |t1| && t2 == (t2 + front[|t1|..])[..|t1|] == t1;
      }
    }
  }

  lemma NumbersDiffer(c: Captures, a: string, b: string)
    ensures Text(c.(digits := a)) == Text(c.(digits := b)) <==> a == b
  {
    var s, t := Text(c.(digits := a)), Text(c.(digits := b));
    if s == t {
      assert |a| == |b|;
      assert a == s[|HeadText(c.head)|..][..|a|] && b == t[|HeadText(c.head)|..][..|b|];
    }
  }

  lemma RenumberedTwice(v: View, a: string, b: string)
    requires IsView(v) && a != "" && AllDigits(a) && b != ""
    ensures Part(Name(v)) == Some(v.c)
    ensures var p, c := Renumbered(Name(v), v.c, a), v.c.(digits := a);
            && Part(p) == Some(c)
            && (Renumbered(p, c, b) == Renumbered(Name(v), v.c, b)
                <==> a == b || Text(v.c) <= v.front || !(Text(c) <= v.front))
  {
    var v1 := WithNumber(v, a);
    NumberedIsView(v, a);
    RenumberedView(v, a);
    RenumberedView(v, b);
    RenumberedView(v1, b);
    NumbersDiffer(v.c, a, b);
    var t2 := Text(v.c.(digits := b));
    FrontedTwice(v.front, Text(v.c), Text(v1.c), t2);
    SameEnds(v.base, WithNumber(v1, b).front, WithNumber(v, b).front, t2);
  }

  lemma SameEnds(base: string, s: string, t: string, end: string)
    ensures base + s + end == base + t + end <==> s == t
  {
    if base + s + end == base + t + end {
      assert |s| == |t|;
      assert s == (base + s + end)[|base|..][..|s|] && t == (base + t + end)[|base|..][..|t|];
    }
  }

  // ----- names in plain text

  lemma PlainView(base: string, front: string, h: Head, digits: string, rar: bool, number: string)
    requires IsView(View(base, front, Captures(h, digits, rar))) && |number| == |digits| && front == ""
    ensures
      var c := Captures(h, digits, rar);
      var name := base + HeadText(h) + digits + TailText(rar);
      && Part(name) == Some(c)
      && Renumbered(name, c, number) == base + HeadText(h) + number + TailText(rar)
  {
    var v := View(base, front, Captures(h, digits, rar));
    RenumberedView(v, number);
    Spelled(v);
    Spelled(WithNumber(v, number));
  }

  lemma Spelled(v: View)
    requires v.front == ""
    ensures Name(v) == v.base + HeadText(v.c.head) + v.c.digits + TailText(v.c.rar)
  {
  }

  /** The parts of `base.part01.rar` are `base.part` and the number in as many digits, then `.rar`, and the glob
      of all has a question mark for each digit; likewise `base.r01.rar` and `base.01.rar`. */
  lemma PartsWithRar(base: string, digits: string, n: nat, number: string)
    requires base != "" && digits != "" && AllDigits(digits)
    requires number == Padded(n, |digits|) && |number| == |digits|
    ensures NthPart(base + ".part" + digits + ".rar", n) == Some(base + ".part" + number + ".rar")
    ensures NthPart(base + ".r" + digits + ".rar", n) == Some(base + ".r" + number + ".rar")
    ensures NthPart(base + "." + digits + ".rar", n) == Some(base + "." + number + ".rar")
    ensures AllPartsOption(base + ".part" + digits + ".rar") == Some(base + ".part" + Questions(|digits|) + ".rar")
    ensures AllPartsOption(base + ".r" + digits + ".rar") == Some(base + ".r" + Questions(|digits|) + ".rar")
    ensures AllPartsOption(base + "." + digits + ".rar") == Some(base + "." + Questions(|digits|) + ".rar")
  {
    PlainView(base, "", PartWord, digits, true, number);
    PlainView(base, "", R, digits, true, number);
    PlainView(base, "", Dot, digits, true, number);
    PlainView(base, "", PartWord, digits, true, Questions(|digits|));
    PlainView(base, "", R, digits, true, Questions(|digits|));
    PlainView(base, "", Dot, digits, true, Questions(|digits|));
  }

  lemma NoDot(base: string)
    requires base != "" && Dotless(base)
    ensures Extension(base).None? && NamesFile(base)
  {
  }

  /** Without `.rar` at the end, the parts of `base.part01`, `base.r01` and `base.01` have the same forms; a name
      that ends in `.rar` alone is no part of several. */
  lemma PartsWithoutRar(base: string, digits: string, n: nat, number: string)
    requires base != "" && Dotless(base) && digits != "" && AllDigits(digits)
    requires number == Padded(n, |digits|) && |number| == |digits|
    ensures NthPart(base + ".part" + digits, n) == Some(base + ".part" + number)
    ensures NthPart(base + ".r" + digits, n) == Some(base + ".r" + number)
    ensures NthPart(base + "." + digits, n) == Some(base + "." + number)
    ensures AllPartsOption(base + ".part" + digits) == Some(base + ".part" + Questions(|digits|))
    ensures AllPartsOption(base + ".r" + digits) == Some(base + ".r" + Questions(|digits|))
    ensures AllPartsOption(base + "." + digits) == Some(base + "." + Questions(|digits|))
    ensures NthPart(base + ".rar", n) == None == AllPartsOption(base + ".rar")
    ensures NthPart(base, n) == None == AllPartsOption(base)
  {
    NoDot(base);
    UntailedParts(base, PartWord, digits, n, number);
    UntailedParts(base, R, digits, n, number);
    UntailedParts(base, Dot, digits, n, number);
    RarAlone(base);
  }

  lemma UntailedParts(base: string, h: Head, digits: string, n: nat, number: string)
    requires base != "" && Extension(base).None? && NamesFile(base) && digits != "" && AllDigits(digits)
    requires number == Padded(n, |digits|) && |number| == |digits|
    ensures NthPart(base + HeadText(h) + digits, n) == Some(base + HeadText(h) + number)
    ensures AllPartsOption(base + HeadText(h) + digits) == Some(base + HeadText(h) + Questions(|digits|))
  {
    PlainView(base, "", h, digits, false, number);
    PlainView(base, "", h, digits, false, Questions(|digits|));
    assert base + HeadText(h) + digits + "" == base + HeadText(h) + digits;
    assert base + HeadText(h) + number + "" == base + HeadText(h) + number;
    assert base + HeadText(h) + Questions(|digits|) + "" == base + HeadText(h) + Questions(|digits|);
  }

  lemma RarAlone(base: string)
    requires base != "" && Dotless(base)
    ensures Part(base + ".rar").None? && Part(base).None?
  {
    NoDot(base);
    assert base + "." + "rar" == base + ".rar" && "." + "rar" == ".rar";
    OneExtension(base, "rar");
    NoNumber("rar");
  }

  /** An extension that does not end in a digit holds no match. */
  lemma NoNumber(ext: string)
    requires Dotless(ext) && ext != "" && !IsDigit(ext[|ext| - 1])
    ensures Find("." + ext).None?
  {
    FindOneDot(ext);
    var c := Find("." + ext);
    if c.Some? {
      TextMeaning(c.value);
    }
  }

  /** `my.archive.rar` is no part of several either: where the extension before `.rar` ends in no digit. */
  lemma NamedArchive(base: string, ext: string, n: int)
    requires base != "" && Dotless(ext) && ext != "" && !IsDigit(ext[|ext| - 1])
    ensures NthPart(base + "." + ext + ".rar", n) == None == AllPartsOption(base + "." + ext + ".rar")
  {
    assert base + "." + ext + "." + "rar" == base + "." + ext + ".rar";
    NotTwoDots(base, ext);
    TwoExtensions(base, ext, "rar");
    var s := "." + ext + "." + "rar";
    FindTwoDots(s, ext, "rar");
    NoNumber("rar");
    NoWhole(ext, s);
  }

  lemma NotTwoDots(base: string, ext: string)
    requires ext != "" && Dotless(ext)
    ensures base + "." + ext != ".."
  {
    assert (base + "." + ext)[|base| + |ext|] == ext[|ext| - 1];
  }

  lemma NoWhole(ext: string, s: string)
    requires Dotless(ext) && ext != "" && !IsDigit(ext[|ext| - 1]) && s == "." + ext + "." + "rar"
    requires Find(s).Some? ==> IsMatch(Find(s).value) && Text(Find(s).value) == if Find(s).value.rar then s else "." + "rar"
    ensures Find(s).None?
  {
    DigitBeforeRar();
    assert s[|s| - 5] == ext[|ext| - 1];
    assert forall c: Captures :: IsMatch(c) && !c.rar ==> Text(c) != "." + "rar" by {
      forall c: Captures | IsMatch(c) && !c.rar ensures Text(c) != "." + "rar" { TextMeaning(c); }
    }
  }

  lemma DigitBeforeRar()
    ensures forall c: Captures :: IsMatch(c) && c.rar ==> |Text(c)| > 5 && IsDigit(Text(c)[|Text(c)| - 5])
  {
    forall c: Captures | IsMatch(c) && c.rar ensures |Text(c)| > 5 && IsDigit(Text(c)[|Text(c)| - 5]) {
      assert Text(c)[|Text(c)| - 5] == c.digits[|c.digits| - 1];
    }
  }

  // ----- numbers

  function Pow10(w: nat): (p: nat)
    ensures p > 0
  {
    if w == 0 then 1 else 10 * Pow10(w - 1)
  }

  lemma {:induction false} DecimalWidth(n: nat, w: nat)
    requires n < Pow10(w) && w > 0
    ensures |Decimal(n)| <= w
  {
    if n >= 10 {
      assert w > 1;
      DecimalWidth(n / 10, w - 1);
    }
  }

  function Value(s: string): int {
    if s == "" then 0 else 10 * Value(s[..|s| - 1]) + (s[|s| - 1] as int - '0' as int)
  }

  lemma {:induction false} ValueOfDecimal(n: nat, zeros: nat)
    ensures Value(Zeros(zeros) + Decimal(n)) == n
  {
    var s := Zeros(zeros) + Decimal(n);
    if n < 10 {
      assert s[..|s| - 1] == Zeros(zeros);
      ValueOfZeros(zeros);
    } else {
      assert s[..|s| - 1] == Zeros(zeros) + Decimal(n / 10);
      ValueOfDecimal(n / 10, zeros);
    }
  }

  lemma {:induction false} ValueOfZeros(zeros: nat)
    ensures Value(Zeros(zeros)) == 0
  {
    if zeros > 0 {
      assert Zeros(zeros)[..zeros - 1] == Zeros(zeros - 1);
      ValueOfZeros(zeros - 1);
    }
  }

  lemma PaddedMeaning(n: int, w: nat)
    ensures Padded(n, w) != ""
    ensures n >= 0 ==> AllDigits(Padded(n, w)) && Value(Padded(n, w)) == n
    ensures n < 0 ==> !AllDigits(Padded(n, w))
    ensures 0 <= n < Pow10(w) && w > 0 ==> |Padded(n, w)| == w
  {
    if n < 0 {
      assert Padded(n, w)[0] == '-';
    } else {
      var zeros := w - |Decimal(n)|;
      ValueOfDecimal(n, if zeros < 0 then 0 else zeros);
      if n < Pow10(w) && w > 0 {
        DecimalWidth(n, w);
      }
    }
  }

  // ----- the laws

  /** The part `n` of a name is a part with the number `n`, in the same form and width. */
  lemma NthPartHasNumber(name: string, n: nat)
    requires Part(name).Some? && n < Pow10(|Part(name).value.digits|) && NamesFile(FileStem(name))
    ensures
      var c, p := Part(name).value, Part(NthPart(name, n).value);
      && p.Some? && p.value == c.(digits := p.value.digits)
      && |p.value.digits| == |c.digits| && Value(p.value.digits) == n
  {
    var c := Part(name).value;
    var a := Padded(n, |c.digits|);
    FindMeaning(RarExtension(name).value);
    PaddedMeaning(n, |c.digits|);
    NameOfView(name);
    RenumberedTwice(ViewOf(name), a, a);
  }

  /** The front of the extensions comes to match with the number `n`, though it does not with the
      name's own. */
  predicate Confused(name: string, n: nat)
    requires Part(name).Some?
  {
    var c := Part(name).value;
    !(Text(c) <= Front(name)) && Text(c.(digits := Padded(n, |c.digits|))) <= Front(name)
  }

  predicate Fits(name: string, n: nat)
    requires Part(name).Some?
  {
    n < Pow10(|Part(name).value.digits|)
  }

  /** The part `m` of the part `n` is the part `m`, exactly when some file name stands before the
      extensions and no text in front of the match comes to be taken for it. */
  lemma NthOfNthIff(name: string, n: nat, m: int)
    requires Part(name).Some? && Fits(name, n)
    ensures NthPart(NthPart(name, n).value, m) == NthPart(name, m)
       <==> NamesFile(FileStem(name)) && (m == n || !Confused(name, n))
  {
    var c := Part(name).value;
    var w := |c.digits|;
    var a, b := Padded(n, w), Padded(m, w);
    FindMeaning(RarExtension(name).value);
    PaddedMeaning(n, w);
    PaddedMeaning(m, w);
    if NamesFile(FileStem(name)) {
      NameOfView(name);
      RenumberedTwice(ViewOf(name), a, b);
      assert a == b <==> m == n;
    } else {
      assert NthPart(name, n) == Some(FileStem(name));
      NoPart(FileStem(name));
    }
  }

  lemma NoPart(name: string)
    requires !NamesFile(name)
    ensures Part(name).None?
  {
    assert name == "." || name == "..";
    if name == "." {
      assert "." == "" + "." + "";
      LastDotOf("", "");
    }
  }

  lemma AllPartsOfNthIff(name: string, n: nat)
    requires Part(name).Some? && Fits(name, n)
    ensures AllPartsOption(NthPart(name, n).value) == AllPartsOption(name)
       <==> NamesFile(FileStem(name)) && !Confused(name, n)
  {
    var c := Part(name).value;
    var w := |c.digits|;
    var a, b := Padded(n, w), Questions(w);
    FindMeaning(RarExtension(name).value);
    PaddedMeaning(n, w);
    if NamesFile(FileStem(name)) {
      NameOfView(name);
      assert b[0] == '?';
      RenumberedTwice(ViewOf(name), a, b);
    } else {
      assert NthPart(name, n) == Some(FileStem(name));
      NoPart(FileStem(name));
    }
  }

  lemma LawsOfView(v: View, n: nat)
    requires IsView(v)
    ensures Part(Name(v)) == Some(v.c) && Front(Name(v)) == v.front
    ensures Fits(Name(v), n) <==> n < Pow10(|v.c.digits|)
    ensures Confused(Name(v), n)
       <==> !(Text(v.c) <= v.front) && Text(v.c.(digits := Padded(n, |v.c.digits|))) <= v.front
    ensures NamesFile(FileStem(Name(v)))
  {
    ViewOfName(v);
    assert (v.front + Text(v.c))[..|v.front|] == v.front;
  }

  /** Part 3 of part 2 of the archive `a.r02x.r01` is another name than its part 3. */
  lemma ConfusedParts()
    ensures var name := "a" + ".r02x" + ".r01";
            && Part(name).Some? && Fits(name, 2)
            && NthPart(NthPart(name, 2).value, 3) != NthPart(name, 3)
  {
    var c := Captures(R, "01", false);
    var v := View("a", ".r02x", c);
    assert Text(c) == ".r01" && ".r02x"[3] != ".r01"[3];
    assert IsView(v);
    assert Name(v) == "a" + ".r02x" + ".r01";
    LawsOfView(v, 2);
    assert Pow10(2) == 100;
    PaddedTwo();
    assert Text(c.(digits := "02")) == ".r02" && ".r02x" == ".r02" + "x";
    NthOfNthIff(Name(v), 2, 3);
  }

  lemma PaddedTwo()
    ensures Padded(2, 2) == "02"
  {
    assert Decimal(2) == "2" && Zeros(1) == "0";
  }
}
