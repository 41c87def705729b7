// JSON values (libs/nlohmann/json.hpp) with std::map objects.
module Json {
  datatype Json =
    | Null
    | Boolean(b: bool)
    | Number(n: int)
    | String(s: string)
    | Array(items: seq<Json>)
    | Object(members: map<string, Json>)

  predicate SameType(a: Json, b: Json) {
    match a
    case Null => b.Null?
    case Boolean(_) => b.Boolean?
    case Number(_) => b.Number?
    case String(_) => b.String?
    case Array(_) => b.Array?
    case Object(_) => b.Object?
  }

  // The exceptions of the library are represented by their ids.
  type Id = nat

  // ---- the order in which a std::map is traversed ----

  predicate LessEq(a: string, b: string) {
    a == [] || (b != [] && (a[0] < b[0] || (a[0] == b[0] && LessEq(a[1..], b[1..]))))
  }

  lemma {:induction false} LessEqTotal(a: string, b: string)
    ensures LessEq(a, b) || LessEq(b, a)
    ensures LessEq(a, b) && LessEq(b, a) ==> a == b
  {
    if a != [] && b != [] && a[0] == b[0] {
      LessEqTotal(a[1..], b[1..]);
      assert a == [a[0]] + a[1..] && b == [b[0]] + b[1..];
    }
  }

  lemma {:induction false} LessEqTransitive(a: string, b: string, c: string)
    requires LessEq(a, b) && LessEq(b, c)
    ensures LessEq(a, c)
  {
    if a != [] && a[0] == b[0] && b[0] == c[0] {
      LessEqTransitive(a[1..], b[1..], c[1..]);
    }
  }

  lemma SameStart(a: string, b: string)
    ensures forall i :: 0 < i < |a| && i < |b| && a[..i] == b[..i] ==> a[0] == b[0]
  {
    forall i | 0 < i < |a| && i < |b| && a[..i] == b[..i] ensures a[0] == b[0] {
      assert a[0] == a[..i][0] && b[0] == b[..i][0];
    }
  }

  // Lexicographic by character, a proper prefix first.
  lemma {:induction false} LessEqIs(a: string, b: string)
    ensures LessEq(a, b)
       <==> a <= b || exists i :: 0 <= i < |a| && i < |b| && a[..i] == b[..i] && a[i] < b[i]
  {
    if a != [] && b != [] {
      assert a == [a[0]] + a[1..] && b == [b[0]] + b[1..];
      if a[0] == b[0] {
        var x, y := a[1..], b[1..];
        LessEqIs(x, y);
        if i :| 0 <= i < |x| && i < |y| && x[..i] == y[..i] && x[i] < y[i] {
          assert a[..i + 1] == [a[0]] + x[..i] && b[..i + 1] == [b[0]] + y[..i];
          assert a[i + 1] < b[i + 1];
        }
        if i :| 0 <= i < |a| && i < |b| && a[..i] == b[..i] && a[i] < b[i] {
          assert i > 0;
          assert x[..i - 1] == a[..i][1..] && y[..i - 1] == b[..i][1..];
          assert x[i - 1] < y[i - 1];
        }
      } else if a[0] < b[0] {
        assert a[..0] == b[..0];
      } else {
        SameStart(a, b);
      }
    }
  }

  predicate IsLeast(k: string, keys: set<string>) {
    k in keys && forall j :: j in keys ==> LessEq(k, j)
  }

  lemma {:induction false} HasLeast(keys: set<string>) returns (k: string)
    requires keys != {}
    ensures IsLeast(k, keys)
  {
    hide LessEq;
    var x :| x in keys;
    LessEqTotal(x, x);
    k := x;
    var rest := keys - {x};
    assert forall j :: j in keys ==> j == x || j in rest;
    if rest != {} {
      var l := HasLeast(rest);
      LessEqTotal(x, l);
      if LessEq(x, l) {
        forall j | j in rest ensures LessEq(x, j) {
          LessEqTransitive(x, l, j);
        }
      } else {
        k := l;
      }
    }
  }

  lemma OneLeast(keys: set<string>)
    requires keys != {}
    ensures exists k :: IsLeast(k, keys)
    ensures forall a, b :: IsLeast(a, keys) && IsLeast(b, keys) ==> a == b
  {
    var least := HasLeast(keys);
    forall a, b | IsLeast(a, keys) && IsLeast(b, keys) ensures a == b { LessEqTotal(a, b); }
  }

  function Least(keys: set<string>): (k: string)
    requires keys != {}
    ensures IsLeast(k, keys)
  {
    OneLeast(keys);
    var k :| IsLeast(k, keys);
    k
  }

  // The keys in ascending order, each once.
  function Ordered(keys: set<string>): (ks: seq<string>)
    ensures forall k :: k in ks <==> k in keys
    ensures forall i, j :: 0 <= i < j < |ks| ==> ks[i] != ks[j] && LessEq(ks[i], ks[j])
  {
    if keys == {} then [] else
      var k := Least(keys);
      [k] + Ordered(keys - {k})
  }

  // Taking out a key leaves the order of the others.
  lemma {:induction false} OrderedWithout(keys: set<string>, k: string) returns (x: seq<string>, y: seq<string>)
    requires k in keys
    ensures Ordered(keys) == x + [k] + y && Ordered(keys - {k}) == x + y
    decreases keys
  {
    hide *;
    OrderedStep(keys);
    OrderedStep(keys - {k});
    var least := Least(keys);
    if k == least {
      x, y := [], Ordered(keys - {k});
      assert [] + [k] + y == [k] + y && [] + y == y;
    } else {
      var rest := keys - {least};
      LeastIsIn(keys);
      x, y := OrderedWithout(rest, k);
      LeastRemains(keys, least, k);
      assert keys - {k} - {least} == rest - {k};
      assert [least] + (x + [k] + y) == ([least] + x) + [k] + y;
      assert [least] + (x + y) == ([least] + x) + y;
      x := [least] + x;
    }
  }

  lemma OrderedStep(keys: set<string>)
    ensures keys != {} ==> Ordered(keys) == [Least(keys)] + Ordered(keys - {Least(keys)})
  {}

  lemma LeastIsIn(keys: set<string>)
    requires keys != {}
    ensures Least(keys) in keys && IsLeast(Least(keys), keys)
  {}

  lemma LeastRemains(keys: set<string>, least: string, k: string)
    requires IsLeast(least, keys) && k in keys && k != least
    ensures keys - {k} != {} && Least(keys - {k}) == least
  {
    hide LessEq;
    assert least in keys - {k};
    assert IsLeast(least, keys - {k});
    OneLeast(keys - {k});
    LeastIsIn(keys - {k});
  }
}

// JSON pointers: RFC 6901 as in libs/nlohmann/detail/json_pointer.hpp and
// libs/nlohmann/detail/string_escape.hpp.
module JsonPointer {
  import opened Wrappers
  import opened Json

  // replace_substring
  function ReplaceAll(s: string, f: string, t: string): string
    requires f != []
  {
    if |s| < |f| then s
    else if s[..|f|] == f then t + ReplaceAll(s[|f|..], f, t)
    else [s[0]] + ReplaceAll(s[1..], f, t)
  }

  function Escape(s: string): string {
    ReplaceAll(ReplaceAll(s, "~", "~0"), "/", "~1")
  }

  function Unescape(s: string): string {
    ReplaceAll(ReplaceAll(s, "~1", "/"), "~0", "~")
  }

  // Tokens between slashes.
  function SplitSlash(s: string): (r: seq<string>)
    ensures |r| >= 1
  {
    if s == [] then [[]]
    else
      var r := SplitSlash(s[1..]);
      if s[0] == '/' then [[]] + r else [[s[0]] + r[0]] + r[1..]
  }

  // Every '~' starts a "~0" or a "~1".
  predicate WellEscaped(s: string) {
    forall i :: 0 <= i < |s| && s[i] == '~' ==> i + 1 < |s| && (s[i + 1] == '0' || s[i + 1] == '1')
  }

  function UnescapeAll(ts: seq<string>): Result<seq<string>, Id> {
    if ts == [] then Ok([])
    else if !WellEscaped(ts[0]) then Err(108)
    else
      var r := UnescapeAll(ts[1..]);
      if r.Err? then r else Ok([Unescape(ts[0])] + r.value)
  }

  // The json_pointer constructor.
  function Split(s: string): Result<seq<string>, Id> {
    if s == [] then Ok([])
    else if s[0] != '/' then Err(107)
    else UnescapeAll(SplitSlash(s[1..]))
  }

  // The path that diff builds for a token sequence.
  function Render(tokens: seq<string>): string {
    if tokens == [] then [] else Render(tokens[..|tokens| - 1]) + "/" + Escape(tokens[|tokens| - 1])
  }

  // ---- escaping is invertible ----

  function Tildes(s: string): string {
    if s == [] then [] else (if s[0] == '~' then "~0" else [s[0]]) + Tildes(s[1..])
  }

  function Slashes(s: string): string {
    if s == [] then [] else (if s[0] == '/' then "~1" else [s[0]]) + Slashes(s[1..])
  }

  lemma {:induction false} EscapeIs(s: string)
    ensures ReplaceAll(s, "~", "~0") == Tildes(s)
    ensures ReplaceAll(s, "/", "~1") == Slashes(s)
  {
    if s != [] { EscapeIs(s[1..]); }
  }

  lemma {:induction false} SlashesConcat(a: string, b: string)
    ensures Slashes(a + b) == Slashes(a) + Slashes(b)
  {
    if a == [] {
      assert a + b == b;
    } else {
      assert (a + b)[1..] == a[1..] + b;
      SlashesConcat(a[1..], b);
    }
  }

  // One character of the key, escaped.
  function Escaped(c: char): string {
    if c == '~' then "~0" else if c == '/' then "~1" else [c]
  }

  lemma EscapeStep(s: string)
    requires s != []
    ensures Escape(s) == Escaped(s[0]) + Escape(s[1..])
  {
    EscapeIs(s);
    EscapeIs(s[1..]);
    EscapeIs(Tildes(s));
    EscapeIs(Tildes(s[1..]));
    SlashesConcat(if s[0] == '~' then "~0" else [s[0]], Tildes(s[1..]));
    assert Slashes("~0") == "~0" by { assert "~0"[1..] == "0" && "0"[1..] == ""; }
  }

  lemma {:induction false} TildesConcat(a: string, b: string)
    ensures Tildes(a + b) == Tildes(a) + Tildes(b)
  {
    if a == [] {
      assert a + b == b;
    } else {
      assert (a + b)[1..] == a[1..] + b;
      TildesConcat(a[1..], b);
    }
  }

  // Section 3 of RFC 6901: "~" is written "~0", "/" is written "~1", character by character.
  lemma EscapeIsRfc(a: string, b: string)
    ensures Escape("~") == "~0" && Escape("/") == "~1" && Escape("") == ""
    ensures Escape(a + b) == Escape(a) + Escape(b)
  {
    EscapeIs(a);
    EscapeIs(b);
    EscapeIs(a + b);
    EscapeIs(Tildes(a));
    EscapeIs(Tildes(b));
    EscapeIs(Tildes(a + b));
    TildesConcat(a, b);
    SlashesConcat(Tildes(a), Tildes(b));
    EscapeStep("~");
    EscapeStep("/");
    EscapeIs("");
    assert "~"[1..] == "" && "/"[1..] == "";
  }

  lemma {:induction false} EscapeClean(s: string)
    ensures '/' !in Escape(s) && WellEscaped(Escape(s))
  {
    if s == [] {
      EscapeIs(s);
    } else {
      EscapeStep(s);
      EscapeClean(s[1..]);
    }
  }

  lemma UnescapeEscape(s: string)
    ensures Unescape(Escape(s)) == s
  {
    EscapeIs(s);
    EscapeIs(Tildes(s));
    TildesClean(s);
    SlashesBack(Tildes(s));
    TildesBack(s);
  }

  lemma {:induction false} TildesClean(s: string)
    ensures forall i :: 0 <= i < |Tildes(s)| && Tildes(s)[i] == '~' ==> i + 1 < |Tildes(s)| && Tildes(s)[i + 1] == '0'
  {
    if s != [] { TildesClean(s[1..]); }
  }

  lemma {:induction false} TildesBack(s: string)
    ensures ReplaceAll(Tildes(s), "~0", "~") == s
  {
    if s != [] {
      TildesBack(s[1..]);
      var t := Tildes(s);
      if s[0] == '~' {
        assert t[..2] == "~0" && t[2..] == Tildes(s[1..]);
        assert s == "~" + s[1..];
      } else {
        assert t[0] == s[0] && t[1..] == Tildes(s[1..]);
        assert s == [s[0]] + s[1..];
        if |t| >= 2 { assert t[..2][0] != '~'; }
      }
    }
  }

  // Where every '~' is followed by '0', "~1" can only come from a slash.
  lemma {:induction false} SlashesBack(s: string)
    requires forall i :: 0 <= i < |s| && s[i] == '~' ==> i + 1 < |s| && s[i + 1] == '0'
    ensures ReplaceAll(Slashes(s), "~1", "/") == s
  {
    if s != [] {
      assert forall i :: 0 <= i < |s| - 1 ==> s[1..][i] == s[i + 1];
      SlashesBack(s[1..]);
      var t := Slashes(s);
      if s[0] == '/' {
        assert t[..2] == "~1" && t[2..] == Slashes(s[1..]);
        assert s == "/" + s[1..];
      } else {
        assert t[0] == s[0] && t[1..] == Slashes(s[1..]);
        if |t| >= 2 {
          if s[0] == '~' {
            assert s[1] == '0' && Slashes(s[1..])[0] == '0';
          }
          assert t[..2] != "~1" by { assert t[..2][0] == t[0] && t[..2][1] == t[1]; }
        }
        assert s == [s[0]] + s[1..];
      }
    }
  }

  // ---- splitting inverts rendering ----

  lemma {:induction false} SplitConcat(a: string, b: string)
    ensures SplitSlash(a + "/" + b) == SplitSlash(a) + SplitSlash(b)
  {
    if a == [] {
      assert a + "/" + b == "/" + b;
      assert ("/" + b)[1..] == b;
    } else {
      assert (a + "/" + b)[0] == a[0] && (a + "/" + b)[1..] == a[1..] + "/" + b;
      SplitConcat(a[1..], b);
    }
  }

  lemma {:induction false} SplitNone(s: string)
    requires '/' !in s
    ensures SplitSlash(s) == [s]
  {
    if s != [] {
      SplitNone(s[1..]);
      assert s == [s[0]] + s[1..];
    }
  }

  lemma {:induction false} UnescapeAllAppend(ts: seq<string>, t: string)
    requires UnescapeAll(ts).Ok? && WellEscaped(t)
    ensures UnescapeAll(ts + [t]) == Ok(UnescapeAll(ts).value + [Unescape(t)])
  {
    hide Unescape;
    hide WellEscaped;
    if ts == [] {
      assert ts + [t] == [t] && [t][1..] == [];
      assert UnescapeAll(ts).value + [Unescape(t)] == [Unescape(t)] + [];
    } else {
      assert (ts + [t])[1..] == ts[1..] + [t];
      UnescapeAllAppend(ts[1..], t);
      var u, r, v := Unescape(ts[0]), UnescapeAll(ts[1..]).value, Unescape(t);
      assert [u] + r + [v] == [u] + (r + [v]);
    }
  }

  // Section 3 of RFC 6901 and its escaping: parsing a rendered pointer gives back
  // the tokens, whatever characters they contain.
  lemma {:induction false} SplitRender(tokens: seq<string>)
    ensures Split(Render(tokens)) == Ok(tokens)
    ensures tokens != [] ==> Render(tokens) != [] && Render(tokens)[0] == '/'
  {
    hide Escape;
    hide Unescape;
    hide WellEscaped;
    if tokens != [] {
      var init, last := tokens[..|tokens| - 1], tokens[|tokens| - 1];
      SplitRender(init);
      EscapeClean(last);
      SplitNone(Escape(last));
      UnescapeEscape(last);
      var path := Render(tokens);
      if init == [] {
        assert path[1..] == Escape(last);
        UnescapeAllAppend([], Escape(last));
        assert [] + [Escape(last)] == [Escape(last)] && [] + [last] == [last];
        assert path[0] == '/' && SplitSlash(path[1..]) == [Escape(last)];
      } else {
        assert path[1..] == Render(init)[1..] + "/" + Escape(last);
        SplitConcat(Render(init)[1..], Escape(last));
        UnescapeAllAppend(SplitSlash(Render(init)[1..]), Escape(last));
      }
      assert tokens == init + [last];
    }
  }

  // What is not a pointer: no leading slash, or an escape that is neither of the two.
  lemma SplitErrors(s: string, t: string)
    requires s != "" && s[0] != '/' && '/' !in t
    requires exists i :: 0 <= i < |t| && t[i] == '~' && (i + 1 == |t| || (t[i + 1] != '0' && t[i + 1] != '1'))
    ensures Split("") == Ok([]) && Split(s) == Err(107) && Split("/" + t) == Err(108)
  {
    assert ("/" + t)[1..] == t;
    SplitNone(t);
    assert !WellEscaped(t);
  }

  // ---- array indices ----

  function DigitChar(d: nat): char
    requires d < 10
  {
    ['0', '1', '2', '3', '4', '5', '6', '7', '8', '9'][d]
  }

  function DigitValue(c: char): (d: nat)
    requires '0' <= c <= '9'
    ensures d < 10
  {
    c as int - '0' as int
  }

  // std::to_string
  function ToString(n: nat): (s: string)
    ensures |s| >= 1
  {
    if n < 10 then [DigitChar(n)] else ToString(n / 10) + [DigitChar(n % 10)]
  }

  predicate AllDigits(s: string) {
    forall i :: 0 <= i < |s| ==> '0' <= s[i] <= '9'
  }

  function Decimal(s: string): nat
    requires AllDigits(s)
  {
    if s == [] then 0 else 10 * Decimal(s[..|s| - 1]) + DigitValue(s[|s| - 1])
  }

  // array_index; strtoull must consume the whole token.
  function ArrayIndex(s: string): Result<nat, Id> {
    if |s| > 1 && s[0] == '0' then Err(106)
    else if |s| > 1 && !('1' <= s[0] <= '9') then Err(109)
    else if s == [] || !AllDigits(s) then Err(404)
    else Ok(Decimal(s))
  }

  lemma {:induction false} ToStringDigits(n: nat)
    ensures AllDigits(ToString(n)) && Decimal(ToString(n)) == n
    ensures n > 0 ==> ToString(n)[0] != '0'
  {
    var s := ToString(n);
    if n < 10 {
      assert s[..0] == [];
      assert Decimal(s) == DigitValue(s[0]);
    } else {
      ToStringDigits(n / 10);
      assert s[..|s| - 1] == ToString(n / 10);
    }
  }

  lemma IndexRoundTrip(n: nat)
    ensures ArrayIndex(ToString(n)) == Ok(n)
  {
    ToStringDigits(n);
    if n < 10 {
      assert |ToString(n)| == 1;
    }
  }

  lemma {:induction false} DecimalPositive(s: string)
    requires AllDigits(s) && s != [] && s[0] != '0'
    ensures Decimal(s) >= 1
  {
    if |s| > 1 {
      DecimalPositive(s[..|s| - 1]);
    } else {
      assert s[..0] == [];
    }
  }

  lemma DigitBack(c: char)
    requires '0' <= c <= '9'
    ensures DigitChar(DigitValue(c)) == c
  {}

  lemma {:induction false} DecimalToString(s: string)
    requires AllDigits(s) && s != [] && (|s| == 1 || s[0] != '0')
    ensures ToString(Decimal(s)) == s
  {
    var init, last := s[..|s| - 1], s[|s| - 1];
    DigitBack(last);
    assert s == init + [last];
    if |s| == 1 {
      assert init == [];
    } else {
      DecimalPositive(init);
      DecimalToString(init);
      assert Decimal(s) / 10 == Decimal(init) && Decimal(s) % 10 == DigitValue(last);
    }
  }

  // An accepted token is the decimal form of its index, so different tokens never name
  // the same element.
  lemma IndexInjective(s: string, t: string)
    requires ArrayIndex(s).Ok? && ArrayIndex(t) == ArrayIndex(s)
    ensures s == t
  {
    DecimalToString(s);
    DecimalToString(t);
  }

  lemma {:induction false} EscapePlain(s: string)
    requires forall i :: 0 <= i < |s| ==> s[i] != '~' && s[i] != '/'
    ensures Escape(s) == s
  {
    if s == [] {
      EscapeIs(s);
    } else {
      EscapeStep(s);
      EscapePlain(s[1..]);
    }
  }

  lemma EscapeIndex(n: nat)
    ensures Escape(ToString(n)) == ToString(n) && ToString(n) != "-"
  {
    ToStringDigits(n);
    EscapePlain(ToString(n));
  }
}
