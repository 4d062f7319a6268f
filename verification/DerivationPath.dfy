/** Hierarchical wallet derivation paths: their text form and back. */
module DerivationPath {
  import opened Wrappers

  datatype Error = Ambiguous | Empty | InvalidComponent(text: string) | OutOfRange(value: int, max: nat)

  datatype Result<+T> = Ok(value: T) | Err(error: Error)

  const HARDENED: nat := 0x8000_0000
  const MAX_UINT32: nat := 0xFFFF_FFFF

  /** The root that relative paths are appended to. */
  const DEFAULT_ROOT: seq<nat> := [HARDENED + 44, HARDENED + 60, HARDENED, 0]

  // -------------------------------------------------------------------------
  // Text
  // -------------------------------------------------------------------------

  function Split(s: string): (parts: seq<string>)
    ensures parts != []
  {
    if s == "" then [""]
    else
      var rest := Split(s[1..]);
      if s[0] == '/' then [""] + rest else [[s[0]] + rest[0]] + rest[1..]
  }

  /** Unicode white space. */
  predicate IsSpace(c: char) {
    var n := c as int;
    || 9 <= n <= 13 || n == 0x20 || n == 0x85 || n == 0xA0 || n == 0x1680 || 0x2000 <= n <= 0x200A
    || n == 0x2028 || n == 0x2029 || n == 0x202F || n == 0x205F || n == 0x3000
  }

  function TrimLeft(s: string): string {
    if s != "" && IsSpace(s[0]) then TrimLeft(s[1..]) else s
  }

  function TrimRight(s: string): string {
    if s != "" && IsSpace(s[|s| - 1]) then TrimRight(s[..|s| - 1]) else s
  }

  function TrimSpace(s: string): string {
    TrimRight(TrimLeft(s))
  }

  function Digit(d: nat): char
    requires d < 10
  {
    ('0' as int + d) as char
  }

  function Decimal(n: nat): string {
    if n < 10 then [Digit(n)] else Decimal(n / 10) + [Digit(n % 10)]
  }

  predicate IsDigit(c: char) {
    '0' as int <= c as int <= '9' as int
  }

  /** A decimal numeral without superfluous zeros in front, which would make it octal. */
  predicate IsNumeral(s: string) {
    s != "" && (forall i :: 0 <= i < |s| ==> IsDigit(s[i])) && (|s| > 1 ==> s[0] != '0')
  }

  function Value(s: string): nat
    requires forall i :: 0 <= i < |s| ==> IsDigit(s[i])
  {
    if s == "" then 0
    else
      assert IsDigit(s[|s| - 1]);
      var digit: nat := s[|s| - 1] as int - '0' as int;
      10 * Value(s[..|s| - 1]) + digit
  }

  /** The reader of plain decimal numerals. */
  function ReadDecimal(s: string): Option<int> {
    if IsNumeral(s) then Some(Value(s)) else None
  }

  /** What is printed is read back. */
  lemma {:induction false} ReadPrinted(n: nat)
    ensures ReadDecimal(Decimal(n)) == Some(n)
    ensures n > 0 ==> Decimal(n)[0] != '0'
  {
    var s := Decimal(n);
    if n < 10 {
      assert s == [Digit(n)] && s[..0] == "";
      assert IsDigit(s[0]) && s[0] as int == '0' as int + n;
      assert Value(s[..0]) == 0 && Value(s) == n;
    } else {
      ReadPrinted(n / 10);
      assert s[..|s| - 1] == Decimal(n / 10) && s[|s| - 1] == Digit(n % 10);
      assert IsDigit(s[|s| - 1]);
      assert forall i :: 0 <= i < |s| - 1 ==> s[i] == Decimal(n / 10)[i];
    }
  }

  /** And what is read was printed: every numeral is the decimal form of its value. */
  lemma {:induction false} PrintRead(s: string)
    requires IsNumeral(s)
    ensures Decimal(Value(s)) == s && (s[0] != '0' ==> Value(s) > 0)
    decreases |s|
  {
    var init, last := s[..|s| - 1], s[|s| - 1];
    assert s == init + [last];
    if init == "" {
      assert Value(init) == 0;
    } else {
      PrintRead(init);
    }
  }

  /** Reading numbers: whatever else is understood, plain decimal numerals are read as what they say. */
  ghost predicate ReadsDecimals(number: string -> Option<int>) {
    forall n: nat :: number(Decimal(n)) == Some(n)
  }

  // -------------------------------------------------------------------------
  // Parsing
  // -------------------------------------------------------------------------

  function ParseComponent(component: string, number: string -> Option<int>): (r: Result<nat>)
    ensures r.Ok? ==> r.value <= MAX_UINT32
  {
    var text := TrimSpace(component);
    var hardened := text != "" && text[|text| - 1] == '\'';
    var base := if hardened then HARDENED else 0;
    var numeral := if hardened then TrimSpace(text[..|text| - 1]) else text;
    match number(numeral)
    case None => Err(InvalidComponent(numeral))
    case Some(value) =>
      var max := MAX_UINT32 - base;
      if value < 0 || value > max then Err(OutOfRange(value, max)) else Ok(base + value)
  }

  /** The components in order, or the first one's error. */
  ghost function ParseAll(components: seq<string>, number: string -> Option<int>): Result<seq<nat>> {
    if components == [] then Ok([])
    else
      match ParseAll(components[..|components| - 1], number)
      case Err(e) => Err(e)
      case Ok(path) =>
        match ParseComponent(components[|components| - 1], number)
        case Err(e) => Err(e)
        case Ok(value) => Ok(path + [value])
  }

  /** An absolute path starts with m, a relative one continues the default root. */
  ghost function Parsed(path: string, number: string -> Option<int>): Result<seq<nat>> {
    var components := Split(path);
    var first := TrimSpace(components[0]);
    if first == "" then Err(Ambiguous)
    else if first == "m" then
      if |components| == 1 then Err(Empty) else ParseAll(components[1..], number)
    else
      match ParseAll(components, number)
      case Err(e) => Err(e)
      case Ok(rest) => Ok(DEFAULT_ROOT + rest)
  }

  method ParseDerivationPath(path: string, number: string -> Option<int>) returns (r: Result<seq<nat>>)
    ensures r == Parsed(path, number)
  {
    hide Split, TrimSpace, ParseComponent, ParseAll;
    var result: seq<nat> := [];
    var components := Split(path);
    var first := TrimSpace(components[0]);
    if first == "" {
      return Err(Ambiguous);
    } else if first == "m" {
      components := components[1..];
    } else {
      result := DEFAULT_ROOT;
    }
    if |components| == 0 {
      return Err(Empty);
    }
    ghost var root := result;
    ghost var done: seq<nat> := [];
    ParseNone(number);
    for i := 0 to |components|
      invariant ParseAll(components[..i], number) == Ok(done) && result == root + done
    {
      var value := ParseComponent(components[i], number);
      if value.Err? {
        FirstError(components, i, number);
        return Err(value.error);
      }
      ParseNext(components, i, number);
      result := result + [value.value];
      done := done + [value.value];
    }
    assert components[..|components|] == components;
    assert root == [] ==> root + done == done;
    r := Ok(result);
  }

  lemma ParseNone(number: string -> Option<int>)
    ensures ParseAll([], number) == Ok([])
  {
  }

  lemma ParseNext(components: seq<string>, i: nat, number: string -> Option<int>)
    requires i < |components| && ParseAll(components[..i], number).Ok? && ParseComponent(components[i], number).Ok?
    ensures ParseAll(components[..i + 1], number) ==
            Ok(ParseAll(components[..i], number).value + [ParseComponent(components[i], number).value])
  {
    assert components[..i + 1][..i] == components[..i];
  }

  /** An error in a component is the error of the whole. */
  lemma {:induction false} FirstError(components: seq<string>, i: nat, number: string -> Option<int>)
    requires i < |components| && ParseAll(components[..i], number).Ok? && ParseComponent(components[i], number).Err?
    ensures ParseAll(components, number) == Err(ParseComponent(components[i], number).error)
    decreases |components|
  {
    if i < |components| - 1 {
      var shorter := components[..|components| - 1];
      assert shorter[..i] == components[..i];
      FirstError(shorter, i, number);
    }
  }

  // -------------------------------------------------------------------------
  // Printing
  // -------------------------------------------------------------------------

  function Component(c: nat): string {
    if c >= HARDENED then Decimal(c - HARDENED) + "'" else Decimal(c)
  }

  ghost function Printed(path: seq<nat>): string {
    if path == [] then "m" else Printed(path[..|path| - 1]) + "/" + Component(path[|path| - 1])
  }

  method PrintDerivationPath(path: seq<nat>) returns (text: string)
    ensures text == Printed(path)
  {
    text := "m";
    for i := 0 to |path|
      invariant text == Printed(path[..i])
    {
      assert path[..i + 1][..i] == path[..i];
      var component := path[i];
      var hardened := false;
      if component >= HARDENED {
        component := component - HARDENED;
        hardened := true;
      }
      text := text + "/" + Decimal(component);
      if hardened {
        text := text + "'";
      }
      assert text == Printed(path[..i]) + "/" + Component(path[i]);
    }
    assert path[..|path|] == path;
  }

  // -------------------------------------------------------------------------
  // There and back
  // -------------------------------------------------------------------------

  ghost predicate IsPath(path: seq<nat>) {
    forall i :: 0 <= i < |path| ==> path[i] <= MAX_UINT32
  }

  /** No separator, quote or white space. */
  ghost predicate Plain(s: string) {
    forall i :: 0 <= i < |s| ==> s[i] != '/' && s[i] != '\'' && !IsSpace(s[i])
  }

  lemma {:induction false} DecimalPlain(n: nat)
    ensures Decimal(n) != "" && Plain(Decimal(n))
  {
    if n >= 10 {
      DecimalPlain(n / 10);
    }
  }

  lemma TrimPlain(s: string)
    requires s != "" && !IsSpace(s[0]) && !IsSpace(s[|s| - 1])
    ensures TrimSpace(s) == s
  {
  }

  lemma {:induction false} SplitAppend(s: string, last: string)
    requires forall i :: 0 <= i < |last| ==> last[i] != '/'
    ensures Split(s + "/" + last) == Split(s) + [last]
    decreases |s|
  {
    if s == "" {
      assert (s + "/" + last)[1..] == last;
      SplitWhole(last);
    } else {
      assert (s + "/" + last)[1..] == s[1..] + "/" + last;
      SplitAppend(s[1..], last);
    }
  }

  lemma {:induction false} SplitWhole(s: string)
    requires forall i :: 0 <= i < |s| ==> s[i] != '/'
    ensures Split(s) == [s]
    decreases |s|
  {
    if s != "" {
      SplitWhole(s[1..]);
      assert [s[0]] + s[1..] == s;
    }
  }

  lemma {:induction false} SplitConcat(s: string, t: string)
    ensures Split(s + "/" + t) == Split(s) + Split(t)
    decreases |s|
  {
    if s == "" {
      assert (s + "/" + t)[1..] == t;
    } else {
      assert (s + "/" + t)[1..] == s[1..] + "/" + t;
      SplitConcat(s[1..], t);
    }
  }

  ghost function Joined(parts: seq<string>): string
    requires parts != []
  {
    if |parts| == 1 then parts[0] else Joined(parts[..|parts| - 1]) + "/" + parts[|parts| - 1]
  }

  /** Splitting undoes joining. */
  lemma {:induction false} SplitJoined(parts: seq<string>)
    requires parts != [] && forall k :: 0 <= k < |parts| ==> '/' !in parts[k]
    ensures Split(Joined(parts)) == parts
  {
    if |parts| == 1 {
      SplitWhole(parts[0]);
    } else {
      var init, last := parts[..|parts| - 1], parts[|parts| - 1];
      assert forall k :: 0 <= k < |init| ==> init[k] == parts[k];
      SplitJoined(init);
      SplitAppend(Joined(init), last);
    }
  }

  /** And joining undoes splitting. */
  lemma {:induction false} JoinSplit(s: string)
    ensures Joined(Split(s)) == s && forall k :: 0 <= k < |Split(s)| ==> '/' !in Split(s)[k]
    decreases |s|
  {
    if s != "" {
      JoinSplit(s[1..]);
      var rest := Split(s[1..]);
      if s[0] == '/' {
        JoinFront("", rest);
      } else {
        JoinGrow(s[0], rest);
      }
      assert [s[0]] + s[1..] == s;
    }
  }

  lemma {:induction false} JoinFront(first: string, rest: seq<string>)
    requires rest != []
    ensures Joined([first] + rest) == first + "/" + Joined(rest)
    decreases |rest|
  {
    var parts := [first] + rest;
    if |rest| > 1 {
      assert parts[..|parts| - 1] == [first] + rest[..|rest| - 1];
      JoinFront(first, rest[..|rest| - 1]);
      assert Joined(parts) == (first + "/" + Joined(rest[..|rest| - 1])) + "/" + rest[|rest| - 1];
    } else {
      assert parts[..1] == [first];
    }
  }

  lemma {:induction false} JoinGrow(c: char, rest: seq<string>)
    requires rest != []
    ensures Joined([[c] + rest[0]] + rest[1..]) == [c] + Joined(rest)
    decreases |rest|
  {
    var parts := [[c] + rest[0]] + rest[1..];
    if |rest| > 1 {
      var init := rest[..|rest| - 1];
      assert parts[..|parts| - 1] == [[c] + init[0]] + init[1..];
      JoinGrow(c, init);
    }
  }

  ghost function Components(path: seq<nat>): (r: seq<string>)
    ensures |r| == |path|
  {
    if path == [] then [] else Components(path[..|path| - 1]) + [Component(path[|path| - 1])]
  }

  lemma ComponentText(c: nat)
    ensures Component(c) != "" && TrimSpace(Component(c)) == Component(c)
    ensures forall i :: 0 <= i < |Component(c)| ==> Component(c)[i] != '/'
  {
    DecimalPlain(if c >= HARDENED then c - HARDENED else c);
    TrimPlain(Component(c));
  }

  lemma {:induction false} SplitPrinted(path: seq<nat>)
    ensures Split(Printed(path)) == ["m"] + Components(path)
  {
    if path == [] {
      assert Split("m") == ["m"] by { SplitWhole("m"); }
    } else {
      var init, c := path[..|path| - 1], path[|path| - 1];
      SplitPrinted(init);
      ComponentText(c);
      SplitAppend(Printed(init), Component(c));
    }
  }

  lemma ComponentRoundTrip(c: nat, number: string -> Option<int>)
    requires c <= MAX_UINT32 && ReadsDecimals(number)
    ensures ParseComponent(Component(c), number) == Ok(c)
  {
    ComponentText(c);
    var n := if c >= HARDENED then c - HARDENED else c;
    DecimalPlain(n);
    TrimPlain(Decimal(n));
    if c >= HARDENED {
      assert Component(c)[..|Component(c)| - 1] == Decimal(n);
    }
  }

  lemma {:induction false} ComponentsRoundTrip(path: seq<nat>, number: string -> Option<int>)
    requires IsPath(path) && ReadsDecimals(number)
    ensures ParseAll(Components(path), number) == Ok(path)
  {
    if path == [] {
      ParseNone(number);
    } else {
      var init, c := path[..|path| - 1], path[|path| - 1];
      assert Components(path) == Components(init) + [Component(c)];
      ComponentsRoundTrip(init, number);
      ComponentRoundTrip(c, number);
      hide *;
      ParseAppend(Components(init), Component(c), number);
      assert path == init + [c];
    }
  }

  lemma ParseAppend(components: seq<string>, last: string, number: string -> Option<int>)
    requires ParseAll(components, number).Ok? && ParseComponent(last, number).Ok?
    ensures ParseAll(components + [last], number) == Ok(ParseAll(components, number).value + [ParseComponent(last, number).value])
  {
    hide ParseComponent;
    assert (components + [last])[..|components|] == components;
  }

  /** Parsing what was printed gives back the path, exactly when there is anything in it. */
  lemma PrintParse(path: seq<nat>, number: string -> Option<int>)
    requires IsPath(path) && ReadsDecimals(number)
    ensures Parsed(Printed(path), number) == if path == [] then Err(Empty) else Ok(path)
  {
    SplitPrinted(path);
    ComponentsRoundTrip(path, number);
    TrimPlain("m");
    assert Split(Printed(path))[1..] == Components(path);
  }

  lemma {:induction false} ParseConcat(a: seq<string>, b: seq<string>, number: string -> Option<int>)
    requires ParseAll(a, number).Ok?
    ensures ParseAll(a + b, number) == match ParseAll(b, number)
                                       case Err(e) => Err(e)
                                       case Ok(rest) => Ok(ParseAll(a, number).value + rest)
    decreases |b|
  {
    hide ParseComponent;
    if b == [] {
      assert a + b == a;
      assert ParseAll(a, number).value + [] == ParseAll(a, number).value;
    } else {
      var init, last := b[..|b| - 1], b[|b| - 1];
      assert (a + b)[..|a + b| - 1] == a + init && (a + b)[|a + b| - 1] == last;
      ParseConcat(a, init, number);
      if ParseAll(init, number).Ok? && ParseComponent(last, number).Ok? {
        var p, q, v := ParseAll(a, number).value, ParseAll(init, number).value, ParseComponent(last, number).value;
        assert (p + q) + [v] == p + (q + [v]);
      }
    }
  }

  lemma {:induction false} ComponentsPlain(path: seq<nat>)
    ensures forall k :: 0 <= k < |path| ==> Components(path)[k] == Component(path[k]) && '/' !in Components(path)[k]
  {
    if path != [] {
      ComponentsPlain(path[..|path| - 1]);
      ComponentText(path[|path| - 1]);
    }
  }

  /** A path that is written without a prefix continues the default root m/44'/60'/0'/0. */
  lemma RelativeParse(path: seq<nat>, number: string -> Option<int>)
    requires path != [] && IsPath(path) && ReadsDecimals(number)
    ensures Parsed(Joined(Components(path)), number) == Ok([0x8000_002C, 0x8000_003C, 0x8000_0000, 0] + path)
  {
    assert HARDENED == 0x8000_0000;
    hide *;
    ComponentsPlain(path);
    SplitJoined(Components(path));
    ComponentsRoundTrip(path, number);
    ComponentStarts(path[0]);
    RelativeResult(Joined(Components(path)), number);
  }

  lemma ComponentStarts(c: nat)
    ensures TrimSpace(Component(c)) != "" && TrimSpace(Component(c)) != "m"
  {
    ComponentText(c);
    DecimalDigit(if c >= HARDENED then c - HARDENED else c);
    assert Component(c)[0] != 'm';
  }

  lemma RelativeResult(text: string, number: string -> Option<int>)
    requires TrimSpace(Split(text)[0]) != "" && TrimSpace(Split(text)[0]) != "m"
    ensures Parsed(text, number) == match ParseAll(Split(text), number)
                                    case Err(e) => Err(e)
                                    case Ok(rest) => Ok([0x8000_002C, 0x8000_003C, 0x8000_0000, 0] + rest)
  {
  }

  lemma RootedResult(text: string, components: seq<string>, number: string -> Option<int>)
    requires Split(text) == ["m"] + components && components != []
    ensures Parsed(text, number) == ParseAll(components, number)
  {
    TrimPlain("m");
    assert Split(text)[1..] == components;
  }

  lemma {:induction false} DecimalDigit(n: nat)
    ensures Decimal(n) != "" && IsDigit(Decimal(n)[0])
  {
    if n >= 10 {
      DecimalDigit(n / 10);
    }
  }

  /** A relative text and the same text behind the default root parse alike, errors included. */
  lemma RelativeIsRooted(text: string, number: string -> Option<int>)
    requires ReadsDecimals(number) && TrimSpace(Split(text)[0]) != "" && TrimSpace(Split(text)[0]) != "m"
    ensures Parsed(text, number) == Parsed("m/44'/60'/0'/0/" + text, number)
  {
    var root := [0x8000_002C, 0x8000_003C, 0x8000_0000, 0];
    RootPath();
    hide *;
    RootSplit(root, text);
    ComponentsRoundTrip(root, number);
    RootedResult("m/44'/60'/0'/0/" + text, Components(root) + Split(text), number);
    ParseConcat(Components(root), Split(text), number);
    RelativeResult(text, number);
  }

  lemma RootPath()
    ensures DEFAULT_ROOT == [0x8000_002C, 0x8000_003C, 0x8000_0000, 0] && IsPath(DEFAULT_ROOT)
  {
  }

  lemma RootSplit(root: seq<nat>, text: string)
    requires root == DEFAULT_ROOT
    ensures Split("m/44'/60'/0'/0/" + text) == ["m"] + (Components(root) + Split(text))
  {
    hide *;
    RootText();
    SplitPrinted(root);
    SplitConcat(Printed(root), text);
    assert "m/44'/60'/0'/0/" + text == Printed(root) + "/" + text;
  }

  lemma RootText()
    ensures Printed(DEFAULT_ROOT) == "m/44'/60'/0'/0"
  {
    var r := DEFAULT_ROOT;
    assert Decimal(44) == "44" && Decimal(60) == "60" && Decimal(0) == "0";
    assert r[..1] == [HARDENED + 44] && r[..1][..0] == [];
    assert r[..2][..1] == r[..1] && r[..3][..2] == r[..2] && r[..4][..3] == r[..3] && r[..4] == r;
    assert Printed(r[..1]) == "m/44'";
    assert Printed(r[..2]) == "m/44'/60'";
    assert Printed(r[..3]) == "m/44'/60'/0'";
  }

  ghost predicate Blank(s: string) {
    forall i :: 0 <= i < |s| ==> IsSpace(s[i])
  }

  lemma {:induction false} TrimLeftBlank(s: string)
    ensures TrimLeft(s) == "" <==> Blank(s)
    decreases |s|
  {
    if s != "" && IsSpace(s[0]) {
      TrimLeftBlank(s[1..]);
      assert s == [s[0]] + s[1..];
    }
  }

  lemma {:induction false} TrimRightKeeps(s: string)
    requires s != "" && !IsSpace(s[0])
    ensures TrimRight(s) != "" && TrimRight(s)[0] == s[0]
    decreases |s|
  {
    if IsSpace(s[|s| - 1]) {
      TrimRightKeeps(s[..|s| - 1]);
    }
  }

  lemma {:induction false} TrimLeftStarts(s: string)
    ensures TrimLeft(s) != "" ==> !IsSpace(TrimLeft(s)[0])
    decreases |s|
  {
    if s != "" && IsSpace(s[0]) {
      TrimLeftStarts(s[1..]);
    }
  }

  lemma TrimBlank(s: string)
    ensures TrimSpace(s) == "" <==> Blank(s)
  {
    TrimLeftBlank(s);
    TrimLeftStarts(s);
    if TrimLeft(s) != "" {
      TrimRightKeeps(TrimLeft(s));
    }
  }

  lemma {:induction false} ParseAllErrors(components: seq<string>, number: string -> Option<int>)
    requires ParseAll(components, number).Err?
    ensures ParseAll(components, number).error.InvalidComponent? || ParseAll(components, number).error.OutOfRange?
  {
    if components != [] {
      var init := components[..|components| - 1];
      if ParseAll(init, number).Err? {
        ParseAllErrors(init, number);
      }
    }
  }

  /** A path is ambiguous exactly when its first component is blank, and empty exactly when it is the mark m alone. */
  lemma PrefixErrors(text: string, number: string -> Option<int>)
    ensures Parsed(text, number) == Err(Ambiguous) <==> Blank(Split(text)[0])
    ensures Parsed(text, number) == Err(Empty) <==> |Split(text)| == 1 && TrimSpace(text) == "m"
  {
    var components := Split(text);
    TrimBlank(components[0]);
    JoinSplit(text);
    if |components| > 1 && ParseAll(components[1..], number).Err? {
      ParseAllErrors(components[1..], number);
    }
    if ParseAll(components, number).Err? {
      ParseAllErrors(components, number);
    }
  }

  lemma {:induction false} TrimLeftPad(pad: string, s: string)
    requires Blank(pad)
    ensures TrimLeft(pad + s) == TrimLeft(s)
    decreases |pad|
  {
    if pad == "" {
      assert pad + s == s;
    } else {
      assert (pad + s)[1..] == pad[1..] + s;
      TrimLeftPad(pad[1..], s);
    }
  }

  lemma {:induction false} TrimRightPad(s: string, pad: string)
    requires Blank(pad)
    ensures TrimRight(s + pad) == TrimRight(s)
    decreases |pad|
  {
    if pad == "" {
      assert s + pad == s;
    } else {
      assert (s + pad)[..|s + pad| - 1] == s + pad[..|pad| - 1];
      TrimRightPad(s, pad[..|pad| - 1]);
    }
  }

  lemma {:induction false} TrimLeftOver(s: string, tail: string)
    ensures TrimLeft(s + tail) == if Blank(s) then TrimLeft(tail) else TrimLeft(s) + tail
    decreases |s|
  {
    if Blank(s) {
      TrimLeftPad(s, tail);
    } else if IsSpace(s[0]) {
      assert (s + tail)[1..] == s[1..] + tail;
      TrimLeftOver(s[1..], tail);
      assert s == [s[0]] + s[1..];
    }
  }

  lemma TrimPad(pad: string, s: string, pad': string)
    requires Blank(pad) && Blank(pad')
    ensures TrimSpace(pad + s + pad') == TrimSpace(s)
  {
    assert pad + s + pad' == pad + (s + pad');
    TrimLeftPad(pad, s + pad');
    TrimLeftOver(s, pad');
    TrimLeftBlank(s);
    TrimLeftBlank(pad');
    if !Blank(s) {
      TrimRightPad(TrimLeft(s), pad');
    }
  }

  /** White space around a component is ignored, and so is white space around the number before the mark. */
  lemma SpaceIgnored(pad: string, s: string, pad': string, number: string -> Option<int>)
    requires Blank(pad) && Blank(pad')
    ensures ParseComponent(pad + s + pad', number) == ParseComponent(s, number)
    ensures !Blank(s) ==> ParseComponent(pad + s + pad' + "'", number) == ParseComponent(s + "'", number)
  {
    TrimPad(pad, s, pad');
    if !Blank(s) {
      var padded := pad + s + pad';
      var i :| 0 <= i < |s| && !IsSpace(s[i]);
      assert padded[|pad| + i] == s[i];
      hide TrimSpace, IsSpace;
      MarkedNumeral(padded);
      MarkedNumeral(s);
    }
  }

  lemma MarkedNumeral(s: string)
    requires !Blank(s)
    ensures var text := TrimSpace(s + "'");
            text != "" && text[|text| - 1] == '\'' && TrimSpace(text[..|text| - 1]) == TrimSpace(s)
  {
    TrimLeftOver(s, "'");
    var text := TrimLeft(s) + "'";
    assert TrimRight(text) == text;
    assert text[..|text| - 1] == TrimLeft(s);
    TrimLeftStarts(s);
    assert TrimLeft(TrimLeft(s)) == TrimLeft(s);
  }

  /** The range of a number without the mark and with it, and what each stands for. */
  lemma ComponentRange(s: string, number: string -> Option<int>)
    requires s != "" && !IsSpace(s[0]) && !IsSpace(s[|s| - 1]) && s[|s| - 1] != '\''
    ensures ParseComponent(s, number) == match number(s)
                                         case None => Err(InvalidComponent(s))
                                         case Some(n) => if 0 <= n < 0x1_0000_0000 then Ok(n) else Err(OutOfRange(n, 0xFFFF_FFFF))
    ensures ParseComponent(s + "'", number) == match number(s)
                                               case None => Err(InvalidComponent(s))
                                               case Some(n) => if 0 <= n < 0x8000_0000 then Ok(0x8000_0000 + n)
                                                               else Err(OutOfRange(n, 0x7FFF_FFFF))
  {
    TrimPlain(s);
    MarkedNumeral(s);
  }

  lemma {:induction false} ParseAllIsPath(components: seq<string>, number: string -> Option<int>)
    requires ParseAll(components, number).Ok?
    ensures |ParseAll(components, number).value| == |components| && IsPath(ParseAll(components, number).value)
  {
    if components != [] {
      ParseAllIsPath(components[..|components| - 1], number);
    }
  }

  /** Whatever text was accepted, printing the path and parsing it again changes nothing. */
  lemma ParsePrintParse(text: string, number: string -> Option<int>)
    requires ReadsDecimals(number) && Parsed(text, number).Ok?
    ensures var path := Parsed(text, number).value;
      path != [] && IsPath(path) && Parsed(Printed(path), number) == Ok(path)
  {
    var components := Split(text);
    if TrimSpace(components[0]) == "m" {
      ParseAllIsPath(components[1..], number);
    } else {
      ParseAllIsPath(components, number);
    }
    PrintParse(Parsed(text, number).value, number);
  }

  /** A component at or above 2^31 that is written without the mark denotes the hardened one, which is how it is printed. */
  lemma UnmarkedHardened(c: nat, number: string -> Option<int>)
    requires HARDENED <= c <= MAX_UINT32 && ReadsDecimals(number)
    ensures ParseComponent(Decimal(c), number) == ParseComponent(Decimal(c - HARDENED) + "'", number) == Ok(c)
    ensures Component(c) != Decimal(c)
  {
    DecimalPlain(c);
    TrimPlain(Decimal(c));
    ComponentRoundTrip(c, number);
    assert Component(c)[|Component(c)| - 1] == '\'';
  }

  /** The decimal reader is such a reader, and the others are those that agree with it on plain numerals. */
  lemma DecimalReaders(number: string -> Option<int>)
    ensures ReadsDecimals(ReadDecimal)
    ensures ReadsDecimals(number) <==> forall s :: IsNumeral(s) ==> number(s) == ReadDecimal(s)
  {
    forall n: nat ensures ReadDecimal(Decimal(n)) == Some(n) && IsNumeral(Decimal(n)) {
      ReadPrinted(n);
    }
    forall s | IsNumeral(s) ensures Decimal(Value(s)) == s {
      PrintRead(s);
    }
  }

  /** With the decimal reader, printing and parsing are inverse on every non-empty path. */
  lemma DecimalRoundTrip(path: seq<nat>)
    requires IsPath(path)
    ensures Parsed(Printed(path), ReadDecimal) == if path == [] then Err(Empty) else Ok(path)
  {
    DecimalReaders(ReadDecimal);
    PrintParse(path, ReadDecimal);
  }

  /** With the decimal reader, a path without a prefix continues the default root. */
  lemma DecimalRelative(path: seq<nat>)
    requires path != [] && IsPath(path)
    ensures Parsed(Joined(Components(path)), ReadDecimal) == Ok([0x8000_002C, 0x8000_003C, 0x8000_0000, 0] + path)
  {
    DecimalReaders(ReadDecimal);
    RelativeParse(path, ReadDecimal);
  }

  /** And every text that it accepts stands for a path that survives printing and parsing. */
  lemma DecimalParsePrintParse(text: string)
    requires Parsed(text, ReadDecimal).Ok?
    ensures var path := Parsed(text, ReadDecimal).value;
      path != [] && IsPath(path) && Parsed(Printed(path), ReadDecimal) == Ok(path)
  {
    DecimalReaders(ReadDecimal);
    ParsePrintParse(text, ReadDecimal);
  }
}
