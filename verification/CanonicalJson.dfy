/** JSON values and the one text that `json.dumps` with sorted keys and no spaces gives each of them. */
module CanonicalJson {
  datatype Json =
    | Null
    | Bool(flag: bool)
    | Number(value: int)
    | Str(text: string)
    | List(items: seq<Json>)
    | Object(fields: map<string, Json>)

  // ---------- sorted keys ----------

  /** Strings in the order of their characters. */
  predicate UpTo(a: string, b: string) {
    a == [] || (b != [] && (a[0] < b[0] || (a[0] == b[0] && UpTo(a[1..], b[1..]))))
  }

  lemma {:induction false} UpToTotal(a: string, b: string)
    ensures UpTo(a, b) || UpTo(b, a)
    ensures UpTo(a, b) && UpTo(b, a) ==> a == b
  {
    if a != [] && b != [] {
      UpToTotal(a[1..], b[1..]);
      assert a == [a[0]] + a[1..] && b == [b[0]] + b[1..];
    }
  }

  lemma {:induction false} UpToTransitive(a: string, b: string, c: string)
    requires UpTo(a, b) && UpTo(b, c)
    ensures UpTo(a, c)
  {
    if a != [] && a[0] == b[0] && b[0] == c[0] {
      UpToTransitive(a[1..], b[1..], c[1..]);
    }
  }

  predicate First(k: string, keys: set<string>) {
    k in keys && forall x :: x in keys ==> UpTo(k, x)
  }

  lemma {:induction false} FirstExists(keys: set<string>)
    requires keys != {}
    ensures exists k :: First(k, keys)
    ensures forall j, k :: First(j, keys) && First(k, keys) ==> j == k
  {
    forall j, k | First(j, keys) && First(k, keys)
      ensures j == k
    {
      UpToTotal(j, k);
    }
    var k :| k in keys;
    var rest := keys - {k};
    UpToTotal(k, k);
    if rest == {} {
      assert keys == {k};
      assert First(k, keys);
    } else {
      FirstExists(rest);
      var j :| First(j, rest);
      UpToTotal(j, k);
      if UpTo(j, k) {
        assert First(j, keys);
      } else {
        forall x | x in rest
          ensures UpTo(k, x)
        {
          UpToTransitive(k, j, x);
        }
        assert First(k, keys);
      }
    }
  }

  function FirstOf(keys: set<string>): (k: string)
    requires keys != {}
    ensures First(k, keys)
  {
    FirstExists(keys);
    var k :| First(k, keys);
    k
  }

  function SortedKeys(keys: set<string>): (s: seq<string>)
    ensures |s| == |keys| && forall k :: k in s <==> k in keys
  {
    if keys == {} then [] else [FirstOf(keys)] + SortedKeys(keys - {FirstOf(keys)})
  }

  ghost predicate Rising(s: seq<string>) {
    forall i, j :: 0 <= i < j < |s| ==> UpTo(s[i], s[j]) && s[i] != s[j]
  }

  /** The listing is sorted, each key once, so that it does not depend on any order of insertion. */
  lemma {:induction false} SortedKeysRise(keys: set<string>)
    ensures Rising(SortedKeys(keys))
  {
    if keys != {} {
      var k := FirstOf(keys);
      var rest := SortedKeys(keys - {k});
      SortedKeysRise(keys - {k});
      assert First(k, keys);
      hide UpTo, FirstOf, SortedKeys, Rising;
      assert forall j :: 0 <= j < |rest| ==> rest[j] in keys - {k};
      RisingCons(k, rest);
      assert SortedKeys(keys) == [k] + rest by { SortedKeysCons(keys); }
    }
  }

  lemma SortedKeysCons(keys: set<string>)
    requires keys != {}
    ensures SortedKeys(keys) == [FirstOf(keys)] + SortedKeys(keys - {FirstOf(keys)})
  {
    hide FirstOf;
  }

  lemma RisingCons(k: string, rest: seq<string>)
    requires Rising(rest) && forall j :: 0 <= j < |rest| ==> UpTo(k, rest[j]) && rest[j] != k
    ensures Rising([k] + rest)
  {
    hide UpTo;
    var s := [k] + rest;
    assert forall i :: 0 < i < |s| ==> s[i] == rest[i - 1];
  }

  // ---------- the text ----------

  function ValueOf(c: char): nat {
    if '0' <= c <= '9' then (c - '0') as nat else if 'a' <= c <= 'f' then (c - 'a') as nat + 10 else 0
  }

  function HexDigitOf(n: nat): (c: char)
    requires n < 16
    ensures ValueOf(c) == n
  {
    if n < 10 then '0' + n as char else 'a' + (n - 10) as char
  }

  /** Quotes, backslashes and control characters are escaped, everything else stands for itself. */
  function Escape(c: char): string {
    if c == '\"' then "\\\""
    else if c == '\\' then "\\\\"
    else if c == '\n' then "\\n"
    else if c == '\r' then "\\r"
    else if c == '\t' then "\\t"
    else if c as int == 8 then "\\b"
    else if c as int == 12 then "\\f"
    else if c < ' ' then "\\u00" + [HexDigitOf(c as int / 16), HexDigitOf(c as int % 16)]
    else [c]
  }

  function Escaped(s: string): string {
    if s == [] then [] else Escape(s[0]) + Escaped(s[1..])
  }

  function Quoted(s: string): string {
    "\"" + (Escaped(s) + "\"")
  }

  function Digit(n: nat): char
    requires n < 10
  {
    '0' + n as char
  }

  function Decimal(n: nat): (s: string)
    ensures s != [] && forall i :: 0 <= i < |s| ==> '0' <= s[i] <= '9'
  {
    (if n < 10 then [] else Decimal(n / 10)) + [Digit(n % 10)]
  }

  function Signed(n: int): string {
    if n < 0 then "-" + Decimal(-n) else Decimal(n)
  }

  function Width(v: Json): nat {
    match v
    case List(items) => |items|
    case Object(fields) => |fields|
    case _ => 0
  }

  /** The text of a value: objects by sorted keys, no spaces, characters outside ASCII as they are. */
  function Dumps(v: Json): string
    decreases v, Width(v) + 1
  {
    match v
    case Null => "null"
    case Bool(flag) => if flag then "true" else "false"
    case Number(value) => Signed(value)
    case Str(text) => Quoted(text)
    case List(_) => "[" + Items(v, 0)
    case Object(_) => "{" + Members(v, 0)
  }

  /** The items from `k` on, up to and with the closing bracket. */
  function Items(v: Json, k: nat): string
    requires v.List? && k <= |v.items|
    decreases v, |v.items| - k
  {
    if k == |v.items| then "]" else Dumps(v.items[k]) + Rest(k + 1 < |v.items|, Items(v, k + 1))
  }

  function Keys(v: Json): (s: seq<string>)
    requires v.Object?
    ensures |s| == |v.fields| && forall k :: k in s <==> k in v.fields
  {
    SortedKeys(v.fields.Keys)
  }

  function Members(v: Json, k: nat): string
    requires v.Object? && k <= |v.fields|
    decreases v, |v.fields| - k
  {
    if k == |v.fields| then "}"
    else
      var key := Keys(v)[k];
      assert key in Keys(v);
      Quoted(key) + (":" + (Dumps(v.fields[key]) + Rest(k + 1 < |v.fields|, Members(v, k + 1))))
  }

  function Rest(more: bool, text: string): string {
    if more then "," + text else text
  }

  // ---------- one text for each value ----------

  /** What may follow a value in a text. */
  predicate Ends(s: string) {
    s == [] || s[0] == ',' || s[0] == ']' || s[0] == '}'
  }

  lemma Split(a: string, b: string, x: string, y: string)
    requires a + x == b + y
    ensures |a| <= |b| ==> a == b[..|a|]
    ensures |a| == |b| ==> x == y
  {
    assert |a| <= |b| ==> (a + x)[..|a|] == (b + y)[..|a|];
    assert |a| == |b| ==> (a + x)[|a|..] == (b + y)[|b|..];
  }

  function Unescape(e: string): char
    requires |e| == 1 || |e| == 2 || |e| == 6
  {
    if |e| == 1 then e[0]
    else if |e| == 6 then (16 * (ValueOf(e[4]) % 16) + ValueOf(e[5]) % 16) as char
    else
      match e[1]
      case 'n' => '\n'
      case 'r' => '\r'
      case 't' => '\t'
      case 'b' => 8 as char
      case 'f' => 12 as char
      case other => other
  }

  /** The first two characters of an escape tell its length, and it can be undone. */
  lemma EscapeUndo(c: char)
    ensures var e := Escape(c);
      && (|e| == 1 || |e| == 2 || |e| == 6) && Unescape(e) == c
      && (|e| == 1 <==> e[0] != '\\') && (|e| == 2 <==> e[0] == '\\' && e[1] != 'u')
  {
    hide ValueOf, HexDigitOf;
  }

  /** No escape is the beginning of another. */
  lemma EscapePrefixFree(c: char, d: char)
    requires |Escape(c)| <= |Escape(d)| && Escape(c) == Escape(d)[..|Escape(c)|]
    ensures c == d
  {
    EscapeUndo(c);
    EscapeUndo(d);
    hide Escape, Unescape;
    var a, b := Escape(c), Escape(d);
    assert a[0] == b[0];
    assert |a| > 1 ==> a[1] == b[1];
    assert |a| == |b| ==> a == b;
  }

  lemma EscapeSeparates(c: char, d: char, x: string, y: string)
    requires Escape(c) + x == Escape(d) + y
    ensures c == d && x == y
  {
    hide Escape;
    Split(Escape(c), Escape(d), x, y);
    Split(Escape(d), Escape(c), y, x);
    if |Escape(c)| <= |Escape(d)| {
      EscapePrefixFree(c, d);
    } else {
      EscapePrefixFree(d, c);
    }
  }

  lemma EscapedHead(s: string, x: string)
    ensures (Escaped(s) + ("\"" + x))[0] == '\"' <==> s == []
  {
    if s != [] {
      assert Escape(s[0]) != [] && Escape(s[0])[0] != '\"';
      assert (Escaped(s) + ("\"" + x))[0] == Escape(s[0])[0];
    }
  }

  lemma {:induction false} EscapedSeparates(s: string, t: string, x: string, y: string)
    requires Escaped(s) + ("\"" + x) == Escaped(t) + ("\"" + y)
    ensures s == t && x == y
  {
    hide Escape;
    EscapedHead(s, x);
    EscapedHead(t, y);
    var a, b := Escaped(s) + ("\"" + x), Escaped(t) + ("\"" + y);
    if s == [] {
      assert x == a[1..] && y == b[1..];
    } else {
      var moreS, moreT := Escaped(s[1..]) + ("\"" + x), Escaped(t[1..]) + ("\"" + y);
      assert a == Escape(s[0]) + moreS && b == Escape(t[0]) + moreT;
      EscapeSeparates(s[0], t[0], moreS, moreT);
      EscapedSeparates(s[1..], t[1..], x, y);
      assert s == [s[0]] + s[1..] && t == [t[0]] + t[1..];
    }
  }

  lemma QuotedSeparates(s: string, t: string, x: string, y: string)
    requires Quoted(s) + x == Quoted(t) + y
    ensures s == t && x == y
  {
    hide Escaped;
    assert (Quoted(s) + x)[1..] == Escaped(s) + ("\"" + x);
    assert (Quoted(t) + y)[1..] == Escaped(t) + ("\"" + y);
    EscapedSeparates(s, t, x, y);
  }

  lemma {:induction false} DecimalInjective(m: nat, n: nat)
    requires Decimal(m) == Decimal(n)
    ensures m == n
  {
    var a, b := Decimal(m), Decimal(n);
    assert a[|a| - 1] == Digit(m % 10) && b[|b| - 1] == Digit(n % 10);
    if m >= 10 && n >= 10 {
      assert a[..|a| - 1] == Decimal(m / 10) && b[..|b| - 1] == Decimal(n / 10);
      DecimalInjective(m / 10, n / 10);
    }
  }

  function LeadingDigits(s: string): string {
    if s != [] && '0' <= s[0] <= '9' then [s[0]] + LeadingDigits(s[1..]) else []
  }

  lemma {:induction false} DigitsEnd(s: string, x: string)
    requires Ends(x) && forall i :: 0 <= i < |s| ==> '0' <= s[i] <= '9'
    ensures LeadingDigits(s + x) == s
  {
    if s == [] {
      assert s + x == x;
    } else {
      DigitsEnd(s[1..], x);
      assert (s + x)[1..] == s[1..] + x;
    }
  }

  lemma DecimalSeparates(m: nat, n: nat, x: string, y: string)
    requires Decimal(m) + x == Decimal(n) + y && Ends(x) && Ends(y)
    ensures m == n && x == y
  {
    hide LeadingDigits;
    DigitsEnd(Decimal(m), x);
    DigitsEnd(Decimal(n), y);
    DecimalInjective(m, n);
    hide Decimal;
    Split(Decimal(m), Decimal(n), x, y);
  }

  lemma SignedHead(m: int, x: string)
    ensures var a := Signed(m) + x;
      && (a[0] == '-' <==> m < 0)
      && (if m < 0 then a[1..] == Decimal(-m) + x else a == Decimal(m) + x)
  {
    hide Decimal;
  }

  lemma SignedSeparates(m: int, n: int, x: string, y: string)
    requires Signed(m) + x == Signed(n) + y && Ends(x) && Ends(y)
    ensures m == n && x == y
  {
    hide Signed, Decimal, Ends;
    SignedHead(m, x);
    SignedHead(n, y);
    if m < 0 {
      DecimalSeparates(-m, -n, x, y);
    } else {
      DecimalSeparates(m, n, x, y);
    }
  }

  /** Which kind of value a text begins. */
  function Kind(c: char): nat {
    if c == 'n' then 1 else if c == 't' || c == 'f' then 2 else if c == '-' || '0' <= c <= '9' then 3
    else if c == '\"' then 4 else if c == '[' then 5 else if c == '{' then 6 else 0
  }

  function KindOf(v: Json): nat {
    match v
    case Null => 1
    case Bool(_) => 2
    case Number(_) => 3
    case Str(_) => 4
    case List(_) => 5
    case Object(_) => 6
  }

  lemma DumpsHead(v: Json)
    ensures Dumps(v) != [] && Kind(Dumps(v)[0]) == KindOf(v)
  {
    if v.Number? {
      SignedHead(v.value, []);
    }
    hide Decimal, Items, Members, Escaped;
  }

  lemma SameKind(a: Json, b: Json, x: string, y: string)
    requires Dumps(a) + x == Dumps(b) + y
    ensures KindOf(a) == KindOf(b)
  {
    DumpsHead(a);
    DumpsHead(b);
    hide Dumps, Kind, KindOf;
    assert (Dumps(a) + x)[0] == (Dumps(b) + y)[0];
  }

  lemma Regroup(a: string, b: string, x: string)
    ensures (a + b) + x == a + (b + x)
  {
  }

  lemma BoolSeparates(a: Json, b: Json, x: string, y: string)
    requires a.Bool? && b.Bool? && Dumps(a) + x == Dumps(b) + y
    ensures a == b && x == y
  {
    assert (Dumps(a) + x)[0] == (Dumps(b) + y)[0];
    Split(Dumps(a), Dumps(b), x, y);
  }

  lemma ItemsHead(v: Json, k: nat)
    requires v.List? && k <= |v.items|
    ensures Items(v, k) != [] && Items(v, k)[0] != ',' && (Items(v, k)[0] == ']' <==> k == |v.items|)
    ensures k == |v.items| ==> Items(v, k) == "]"
  {
    if k < |v.items| {
      DumpsHead(v.items[k]);
      hide Dumps;
    }
  }

  lemma MembersHead(v: Json, k: nat)
    requires v.Object? && k <= |v.fields|
    ensures Members(v, k) != [] && Members(v, k)[0] != ',' && (Members(v, k)[0] == '}' <==> k == |v.fields|)
  {
    hide Dumps, Escaped, SortedKeys, Keys;
  }

  lemma SameHead(a: string, b: string, x: string, y: string)
    requires a != [] && b != [] && a + x == b + y
    ensures a[0] == b[0]
  {
    assert (a + x)[0] == (b + y)[0];
  }

  lemma RestSeparates(moreA: bool, moreB: bool, a: string, b: string, x: string, y: string)
    requires a != [] && a[0] != ',' && b != [] && b[0] != ','
    requires Rest(moreA, a) + x == Rest(moreB, b) + y
    ensures moreA == moreB && a + x == b + y
  {
    SameHead(Rest(moreA, a), Rest(moreB, b), x, y);
    if moreA {
      Regroup(",", a, x);
      Regroup(",", b, y);
      Split(",", ",", a + x, b + y);
    }
  }

  lemma RestEnds(more: bool, a: string, x: string)
    requires more || (a != [] && (a[0] == ']' || a[0] == '}'))
    ensures Ends(Rest(more, a) + x)
  {
  }

  /** The text of a value, and where it stops, can be told from any text that begins with it. */
  lemma {:induction false} DumpsSeparates(a: Json, b: Json, x: string, y: string)
    requires Dumps(a) + x == Dumps(b) + y && Ends(x) && Ends(y)
    ensures a == b && x == y
    decreases a, Width(a) + 1
  {
    SameKind(a, b, x, y);
    hide Items, Members, Quoted, Signed, Ends;
    match a
    case Null =>
      Split("null", "null", x, y);
    case Bool(_) =>
      BoolSeparates(a, b, x, y);
    case Number(value) =>
      SignedSeparates(value, b.value, x, y);
    case Str(text) =>
      QuotedSeparates(text, b.text, x, y);
    case List(_) =>
      Regroup("[", Items(a, 0), x);
      Regroup("[", Items(b, 0), y);
      Split("[", "[", Items(a, 0) + x, Items(b, 0) + y);
      ItemsSeparate(a, b, 0, x, y);
      assert a.items[0..] == a.items && b.items[0..] == b.items;
    case Object(_) =>
      Regroup("{", Members(a, 0), x);
      Regroup("{", Members(b, 0), y);
      Split("{", "{", Members(a, 0) + x, Members(b, 0) + y);
      MembersSeparate(a, b, 0, x, y);
      SameFields(a, b);
  }

  lemma ItemSplits(v: Json, k: nat, x: string)
    requires v.List? && k < |v.items|
    ensures Items(v, k) + x == Dumps(v.items[k]) + (Rest(k + 1 < |v.items|, Items(v, k + 1)) + x)
  {
    hide Dumps, Rest;
    Regroup(Dumps(v.items[k]), Rest(k + 1 < |v.items|, Items(v, k + 1)), x);
  }

  lemma {:induction false} ItemsSeparate(a: Json, b: Json, k: nat, x: string, y: string)
    requires a.List? && b.List? && k <= |a.items| && k <= |b.items|
    requires Items(a, k) + x == Items(b, k) + y
    ensures a.items[k..] == b.items[k..] && x == y
    decreases a, |a.items| - k
  {
    ItemsHead(a, k);
    ItemsHead(b, k);
    SameHead(Items(a, k), Items(b, k), x, y);
    hide Items, Dumps, Rest, Ends;
    if k == |a.items| {
      Split("]", "]", x, y);
    } else {
      var moreA, moreB := k + 1 < |a.items|, k + 1 < |b.items|;
      var nextA, nextB := Items(a, k + 1), Items(b, k + 1);
      var restA, restB := Rest(moreA, nextA), Rest(moreB, nextB);
      ItemsHead(a, k + 1);
      ItemsHead(b, k + 1);
      ItemSplits(a, k, x);
      ItemSplits(b, k, y);
      RestEnds(moreA, nextA, x);
      RestEnds(moreB, nextB, y);
      DumpsSeparates(a.items[k], b.items[k], restA + x, restB + y);
      RestSeparates(moreA, moreB, nextA, nextB, x, y);
      ItemsSeparate(a, b, k + 1, x, y);
      assert a.items[k..] == [a.items[k]] + a.items[k + 1..];
      assert b.items[k..] == [b.items[k]] + b.items[k + 1..];
    }
  }

  /** The two objects list the same keys from `k` on, over equal values. */
  ghost predicate SameFrom(a: Json, b: Json, k: nat)
    requires a.Object? && b.Object? && k <= |a.fields| && k <= |b.fields|
  {
    && |a.fields| == |b.fields|
    && forall i :: k <= i < |a.fields| ==>
         && Keys(a)[i] == Keys(b)[i] && Keys(a)[i] in Keys(a) && Keys(b)[i] in Keys(b)
         && a.fields[Keys(a)[i]] == b.fields[Keys(b)[i]]
  }

  lemma {:induction false} MembersSeparate(a: Json, b: Json, k: nat, x: string, y: string)
    requires a.Object? && b.Object? && k <= |a.fields| && k <= |b.fields|
    requires Members(a, k) + x == Members(b, k) + y
    ensures SameFrom(a, b, k) && x == y
    decreases a, |a.fields| - k
  {
    MembersHead(a, k);
    MembersHead(b, k);
    SameHead(Members(a, k), Members(b, k), x, y);
    hide Dumps, Rest, Quoted, Keys;
    if k == |a.fields| {
      Split("}", "}", x, y);
    } else {
      hide SameFrom;
      var moreA, moreB := k + 1 < |a.fields|, k + 1 < |b.fields|;
      var nextA, nextB := Members(a, k + 1), Members(b, k + 1);
      var restA, restB := Rest(moreA, nextA), Rest(moreB, nextB);
      var keyA, valueA := MemberSplits(a, k, x);
      var keyB, valueB := MemberSplits(b, k, y);
      MembersHead(a, k + 1);
      MembersHead(b, k + 1);
      RestEnds(moreA, nextA, x);
      RestEnds(moreB, nextB, y);
      hide Members;
      QuotedSeparates(keyA, keyB, ":" + (Dumps(valueA) + (restA + x)), ":" + (Dumps(valueB) + (restB + y)));
      Split(":", ":", Dumps(valueA) + (restA + x), Dumps(valueB) + (restB + y));
      DumpsSeparates(valueA, valueB, restA + x, restB + y);
      RestSeparates(moreA, moreB, nextA, nextB, x, y);
      MembersSeparate(a, b, k + 1, x, y);
      SameFromStep(a, b, k, keyA, valueA);
    }
  }

  lemma SameFromStep(a: Json, b: Json, k: nat, key: string, value: Json)
    requires a.Object? && b.Object? && k < |a.fields| && k < |b.fields| && SameFrom(a, b, k + 1)
    requires Keys(a)[k] == key == Keys(b)[k] && key in a.fields && key in b.fields
    requires a.fields[key] == value == b.fields[key]
    ensures SameFrom(a, b, k)
  {
    hide Keys;
  }

  lemma MemberSplits(v: Json, k: nat, x: string) returns (key: string, value: Json)
    requires v.Object? && k < |v.fields|
    ensures key == Keys(v)[k] && key in v.fields && v.fields[key] == value && value < v
    ensures Members(v, k) + x == Quoted(key)
      + (":" + (Dumps(value) + (Rest(k + 1 < |v.fields|, Members(v, k + 1)) + x)))
  {
    hide Dumps, Quoted, Keys, Rest;
    key := Keys(v)[k];
    assert key in Keys(v);
    value := v.fields[key];
    var rest := Rest(k + 1 < |v.fields|, Members(v, k + 1));
    Regroup(Quoted(key), ":" + (Dumps(value) + rest), x);
    Regroup(":", Dumps(value) + rest, x);
    Regroup(Dumps(value), rest, x);
  }

  lemma SameFields(a: Json, b: Json)
    requires a.Object? && b.Object? && SameFrom(a, b, 0)
    ensures a == b
  {
    hide Keys;
    assert Keys(a) == Keys(b);
    forall key | key in a.fields
      ensures key in Keys(b) && a.fields[key] == b.fields[key]
    {
      assert key in Keys(a);
      var i :| 0 <= i < |Keys(a)| && Keys(a)[i] == key;
    }
    assert forall key :: key in b.fields ==> key in Keys(b) && key in a.fields;
    assert a.fields == b.fields;
  }

  /** Two values have the same text exactly when they are the same value. */
  lemma DumpsInjective(a: Json, b: Json)
    ensures Dumps(a) == Dumps(b) <==> a == b
  {
    if Dumps(a) == Dumps(b) {
      assert Dumps(a) + [] == Dumps(b) + [];
      DumpsSeparates(a, b, [], []);
    }
  }
}
