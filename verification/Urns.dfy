/** `URN` of `legacy/v1/scoped/types.py`: printing and parsing of resource names. */
module Urns {
  import opened Wrappers
  import opened Text

  datatype Urn = Urn(kind: string, namespace_: string, name: string, version: int)

  datatype UrnError = Malformed | NotANumber | EmptyField | BadVersion

  /** What construction accepts. */
  predicate Valid(u: Urn) {
    u.kind != "" && u.namespace_ != "" && u.name != "" && u.version >= 1
  }

  function Make(kind: string, namespace_: string, name: string, version: int): (r: Result<Urn, UrnError>)
    ensures r.Ok? <==> Valid(Urn(kind, namespace_, name, version))
    ensures r.Ok? ==> r.value == Urn(kind, namespace_, name, version)
    ensures r == Err(EmptyField) <==> "" in [kind, namespace_, name]
    ensures r == Err(BadVersion) <==> "" !in [kind, namespace_, name] && version <= 0
  {
    if kind == "" || namespace_ == "" || name == "" then Err(EmptyField)
    else if version < 1 then Err(BadVersion)
    else Ok(Urn(kind, namespace_, name, version))
  }

  function Print(u: Urn): string {
    "scoped:" + u.kind + ":" + u.namespace_ + ":" + u.name + ":" + Show(u.version)
  }

  /** `raw.split(":")` */
  function Split(s: string): (parts: seq<string>)
    ensures |parts| >= 1
  {
    if s == "" then [""]
    else if s[0] == ':' then [""] + Split(s[1..])
    else
      var parts := Split(s[1..]);
      [[s[0]] + parts[0]] + parts[1..]
  }

  /** `":".join(parts)` */
  function Join(parts: seq<string>): string {
    if parts == [] then "" else if |parts| == 1 then parts[0] else parts[0] + ":" + Join(parts[1..])
  }

  function Strip(s: string): string
    decreases |s|
  {
    if s != "" && IsSpace(s[0]) then Strip(s[1..])
    else if s != "" && IsSpace(s[|s| - 1]) then Strip(s[..|s| - 1])
    else s
  }

  /** Digits, with single underscores allowed between them. */
  predicate IsNumeral(s: string) {
    s != "" && IsDigit(s[|s| - 1])
    && forall i | 0 <= i < |s| :: IsDigit(s[i]) || (s[i] == '_' && i > 0 && IsDigit(s[i - 1]))
  }

  function WithoutUnderscores(s: string): (r: string)
    ensures (forall i | 0 <= i < |s| :: IsDigit(s[i]) || s[i] == '_') ==> AllDigits(r)
  {
    if s == "" then ""
    else if s[0] == '_' then WithoutUnderscores(s[1..])
    else [s[0]] + WithoutUnderscores(s[1..])
  }

  function ReadNumeral(s: string): Option<int> {
    if IsNumeral(s) then Some(ReadDigits(WithoutUnderscores(s))) else None
  }

  /** `int(s)` for ASCII text. */
  function ReadInt(text: string): Option<int> {
    var s := Strip(text);
    if s != "" && s[0] == '-' then
      var n := ReadNumeral(s[1..]);
      if n.Some? then Some(-n.value) else None
    else if s != "" && s[0] == '+' then ReadNumeral(s[1..])
    else ReadNumeral(s)
  }

  function Parse(raw: string): Result<Urn, UrnError> {
    var parts := Split(raw);
    if |parts| < 5 || parts[0] != "scoped" then Err(Malformed)
    else
      var version := ReadInt(parts[|parts| - 1]);
      if version.None? then Err(NotANumber)
      else Make(parts[1], parts[2], Join(parts[3..|parts| - 1]), version.value)
  }

  /** A numeral consists of digits and of single underscores between them. */
  lemma NumeralExactly(s: string)
    ensures IsNumeral(s) <==>
      && s != "" && IsDigit(s[0]) && IsDigit(s[|s| - 1])
      && (forall c :: c in s ==> IsDigit(c) || c == '_')
      && (forall i | 0 <= i < |s| - 1 :: s[i] == '_' ==> s[i + 1] != '_')
  {
    if IsNumeral(s) {
      forall i | 0 <= i < |s| - 1 && s[i] == '_' ensures s[i + 1] != '_' {
        assert IsDigit(s[i + 1]);
      }
    }
    if s != "" && IsDigit(s[0]) && (forall c :: c in s ==> IsDigit(c) || c == '_') && (forall i | 0 <= i < |s| - 1 :: s[i] == '_' ==> s[i + 1] != '_') {
      forall i | 0 <= i < |s| ensures IsDigit(s[i]) || (s[i] == '_' && i > 0 && IsDigit(s[i - 1])) {
        assert s[i] in s;
        if i > 0 {
          assert s[i - 1] in s && (s[i - 1] == '_' ==> s[i - 1 + 1] != '_');
        }
      }
    }
  }

  ghost predicate AllSpace(s: string) {
    forall c :: c in s ==> IsSpace(c)
  }

  /** White space on either side does not matter. */
  lemma {:induction false} StripExactly(a: string, s: string, b: string)
    requires AllSpace(a) && AllSpace(b) && s != "" && !IsSpace(s[0]) && !IsSpace(s[|s| - 1])
    ensures Strip(a + s + b) == s
    decreases |a| + |b|
  {
    var text := a + s + b;
    if a != [] {
      assert text[0] == a[0] && a[0] in a && text[1..] == a[1..] + s + b;
      StripExactly(a[1..], s, b);
    } else if b != [] {
      assert text[0] == s[0] && text[|text| - 1] == b[|b| - 1] && b[|b| - 1] in b && text[..|text| - 1] == a + s + b[..|b| - 1];
      StripExactly(a, s, b[..|b| - 1]);
    } else {
      assert text == s;
    }
  }

  /** What is refused, and as what. */
  lemma ParseRefuses(raw: string)
    ensures var parts := Split(raw);
      match Parse(raw)
      case Ok(_) => |parts| >= 5 && parts[0] == "scoped"
      case Err(e) =>
        if |parts| < 5 || parts[0] != "scoped" then e == Malformed
        else if ReadInt(parts[|parts| - 1]) == None then e == NotANumber
        else e == if "" in [parts[1], parts[2], Join(parts[3..|parts| - 1])] then EmptyField else BadVersion
  {
  }

  /** The five parts in their order, a colon between any two. */
  lemma PrintExactly(u: Urn)
    ensures Print(u) == Join(["scoped", u.kind, u.namespace_, u.name, Show(u.version)])
  {
    var v := Show(u.version);
    assert ["scoped", u.kind, u.namespace_, u.name, v][1..] == [u.kind, u.namespace_, u.name, v];
    assert [u.kind, u.namespace_, u.name, v][1..] == [u.namespace_, u.name, v];
    assert [u.namespace_, u.name, v][1..] == [u.name, v] && [u.name, v][1..] == [v];
    assert Join([u.name, v]) == u.name + ":" + v;
    assert Join([u.namespace_, u.name, v]) == u.namespace_ + ":" + (u.name + ":" + v);
    assert Join([u.kind, u.namespace_, u.name, v]) == u.kind + ":" + (u.namespace_ + ":" + (u.name + ":" + v));
    assert "scoped" + ":" == "scoped:";
  }

  lemma {:induction false} SplitPlain(s: string)
    requires ':' !in s
    ensures Split(s) == [s]
  {
    if s != "" {
      assert s == [s[0]] + s[1..];
      SplitPlain(s[1..]);
    }
  }

  lemma {:induction false} SplitFirst(a: string, rest: string)
    requires ':' !in a
    ensures Split(a + ":" + rest) == [a] + Split(rest)
    decreases |a|
  {
    var s := a + ":" + rest;
    if a == "" {
      assert s[1..] == rest;
    } else {
      assert a == [a[0]] + a[1..] && s[1..] == a[1..] + ":" + rest;
      SplitFirst(a[1..], rest);
    }
  }

  lemma {:induction false} SplitLast(rest: string, b: string)
    requires ':' !in b
    ensures Split(rest + ":" + b) == Split(rest) + [b]
    decreases |rest|
  {
    var s := rest + ":" + b;
    if rest == "" {
      SplitPlain(b);
      assert s[1..] == b;
    } else {
      assert s[1..] == rest[1..] + ":" + b;
      SplitLast(rest[1..], b);
    }
  }

  lemma JoinPrepends(first: string, parts: seq<string>)
    requires parts != []
    ensures Join([first] + parts) == first + ":" + Join(parts)
  {
    assert ([first] + parts)[1..] == parts;
  }

  lemma JoinExtends(c: char, parts: seq<string>)
    requires parts != []
    ensures Join([[c] + parts[0]] + parts[1..]) == [c] + Join(parts)
  {
    assert ([[c] + parts[0]] + parts[1..])[1..] == parts[1..];
  }

  lemma {:induction false} JoinSplit(s: string)
    ensures Join(Split(s)) == s
  {
    if s != "" {
      JoinSplit(s[1..]);
      var parts := Split(s[1..]);
      assert s == [s[0]] + s[1..];
      if s[0] == ':' {
        JoinPrepends("", parts);
      } else {
        JoinExtends(s[0], parts);
      }
    }
  }

  lemma {:induction false} PartsHaveNoColon(s: string)
    ensures forall p | p in Split(s) :: ':' !in p
  {
    if s != "" {
      PartsHaveNoColon(s[1..]);
      var parts := Split(s[1..]);
      assert parts[0] in parts;
      forall p | p in Split(s) ensures ':' !in p {
        assert p in parts || p == "" || p == [s[0]] + parts[0];
      }
    }
  }

  lemma {:induction false} DigitsStay(s: string)
    requires AllDigits(s)
    ensures WithoutUnderscores(s) == s
  {
    if s != "" {
      DigitsStay(s[1..]);
      assert s == [s[0]] + s[1..];
    }
  }

  lemma ShownVersionReads(n: nat)
    ensures ReadInt(Show(n)) == Some(n) && ':' !in Show(n)
  {
    ShowNatReads(n);
    ShowHasNo(n, ':');
    DigitsStay(ShowNat(n));
    assert IsDigit(Show(n)[0]) && IsDigit(Show(n)[|Show(n)| - 1]);
    assert Strip(Show(n)) == Show(n);
  }

  lemma PrintedParts(u: Urn)
    requires Valid(u)
    ensures Split(Print(u)) == ["scoped"] + Split(u.kind + ":" + u.namespace_ + ":" + u.name) + [Show(u.version)]
  {
    ShowHasNo(u.version, ':');
    var middle := u.kind + ":" + u.namespace_ + ":" + u.name;
    assert "scoped:" + u.kind + ":" + u.namespace_ + ":" + u.name == "scoped" + ":" + middle;
    assert ':' !in "scoped";
    SplitLast("scoped" + ":" + middle, Show(u.version));
    SplitFirst("scoped", middle);
  }

  lemma PlainFieldsRoundTrip(u: Urn)
    requires Valid(u) && ':' !in u.kind && ':' !in u.namespace_
    ensures Parse(Print(u)) == Ok(u)
  {
    hide Split, Print, Show, ReadInt, Join;
    PrintedParts(u);
    ShownVersionReads(u.version);
    assert u.kind + ":" + u.namespace_ + ":" + u.name == u.kind + ":" + (u.namespace_ + ":" + u.name);
    SplitFirst(u.kind, u.namespace_ + ":" + u.name);
    SplitFirst(u.namespace_, u.name);
    var parts := Split(Print(u));
    assert parts == ["scoped", u.kind, u.namespace_] + Split(u.name) + [Show(u.version)];
    assert parts[3..|parts| - 1] == Split(u.name);
    JoinSplit(u.name);
  }

  lemma ParsedFieldsArePlain(raw: string)
    requires Parse(raw).Ok?
    ensures Valid(Parse(raw).value) && ':' !in Parse(raw).value.kind && ':' !in Parse(raw).value.namespace_
  {
    PartsHaveNoColon(raw);
    assert Split(raw)[1] in Split(raw) && Split(raw)[2] in Split(raw);
  }

  /** Parsing undoes printing exactly for names whose kind and namespace contain no colon; the name itself
      may contain any. */
  lemma RoundTrip(u: Urn)
    requires Valid(u)
    ensures Parse(Print(u)) == Ok(u) <==> ':' !in u.kind && ':' !in u.namespace_
  {
    if ':' !in u.kind && ':' !in u.namespace_ {
      PlainFieldsRoundTrip(u);
    } else if Parse(Print(u)) == Ok(u) {
      ParsedFieldsArePlain(Print(u));
    }
  }

  lemma PrintInjective(u: Urn, v: Urn)
    requires Valid(u) && ':' !in u.kind && ':' !in u.namespace_
    requires Valid(v) && ':' !in v.kind && ':' !in v.namespace_
    requires Print(u) == Print(v)
    ensures u == v
  {
    PlainFieldsRoundTrip(u);
    PlainFieldsRoundTrip(v);
  }

  /** Whatever text was parsed, printing gives a canonical form that parses to the same name. */
  lemma ParsedNamesAreStable(raw: string)
    requires Parse(raw).Ok?
    ensures Parse(Print(Parse(raw).value)) == Parse(raw)
  {
    ParsedFieldsArePlain(raw);
    PlainFieldsRoundTrip(Parse(raw).value);
  }
}
