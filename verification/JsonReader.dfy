/** A reader of JSON text, written from the grammar of RFC 8259 without white space and fractions, that reads every
    canonical text back. */
module JsonReader {
  import opened CanonicalJson
  import opened Results

  // ---------- the reader ----------

  predicate IsDigit(c: char) {
    '0' <= c <= '9'
  }

  /** The digits from here on, after those worth `acc`. */
  function ReadDigits(s: string, acc: nat): (r: (nat, string))
    ensures |r.1| <= |s| && (s != [] && IsDigit(s[0]) ==> |r.1| < |s|)
  {
    if s == [] || !IsDigit(s[0]) then (acc, s) else ReadDigits(s[1..], 10 * acc + (s[0] - '0') as nat)
  }

  function ReadNumber(s: string): (r: Option<(int, string)>)
    ensures r.Some? ==> |r.value.1| < |s|
  {
    if s != [] && s[0] == '-' then
      if |s| > 1 && IsDigit(s[1]) then var (n, rest) := ReadDigits(s[1..], 0); Some((0 - n as int, rest)) else None
    else if s != [] && IsDigit(s[0]) then var (n, rest) := ReadDigits(s, 0); Some((n, rest))
    else None
  }

  function HexValue(c: char): Option<nat> {
    if '0' <= c <= '9' then Some((c - '0') as nat)
    else if 'a' <= c <= 'f' then Some((c - 'a') as nat + 10)
    else if 'A' <= c <= 'F' then Some((c - 'A') as nat + 10)
    else None
  }

  /** Four hexadecimal digits, of a character outside the surrogates. */
  function ReadCode(s: string): Option<char> {
    if |s| < 4 || HexValue(s[0]).None? || HexValue(s[1]).None? || HexValue(s[2]).None? || HexValue(s[3]).None? then None
    else
      var n := ((HexValue(s[0]).value * 16 + HexValue(s[1]).value) * 16 + HexValue(s[2]).value) * 16
               + HexValue(s[3]).value;
      if n < 0xD800 then Some(n as char) else None
  }

  /** One character of a string, escaped or not, and what follows it. */
  function ReadChar(s: string): (r: Option<(char, string)>)
    ensures r.Some? ==> |r.value.1| < |s|
  {
    if s == [] || s[0] < ' ' || s[0] == '\"' then None
    else if s[0] != '\\' then Some((s[0], s[1..]))
    else if |s| < 2 then None
    else
      match s[1]
      case '\"' => Some(('\"', s[2..]))
      case '\\' => Some(('\\', s[2..]))
      case '/' => Some(('/', s[2..]))
      case 'b' => Some((8 as char, s[2..]))
      case 'f' => Some((12 as char, s[2..]))
      case 'n' => Some(('\n', s[2..]))
      case 'r' => Some(('\r', s[2..]))
      case 't' => Some(('\t', s[2..]))
      case 'u' => if ReadCode(s[2..]).Some? then Some((ReadCode(s[2..]).value, s[6..])) else None
      case _ => None
  }

  /** A string up to its closing quote. */
  function ReadText(s: string): (r: Option<(string, string)>)
    ensures r.Some? ==> |r.value.1| < |s|
    decreases |s|
  {
    if s != [] && s[0] == '\"' then Some(([], s[1..]))
    else
      match ReadChar(s)
      case None => None
      case Some((c, rest)) =>
        match ReadText(rest)
        case None => None
        case Some((text, after)) => Some(([c] + text, after))
  }

  function ReadValue(s: string): (r: Option<(Json, string)>)
    ensures r.Some? ==> |r.value.1| < |s|
    decreases |s|, 1
  {
    if s == [] then None
    else
      match s[0]
      case 'n' => if "null" <= s then Some((Null, s[4..])) else None
      case 't' => if "true" <= s then Some((Bool(true), s[4..])) else None
      case 'f' => if "false" <= s then Some((Bool(false), s[5..])) else None
      case '\"' =>
        (match ReadText(s[1..])
         case None => None
         case Some((text, rest)) => Some((Str(text), rest)))
      case '[' =>
        if |s| > 1 && s[1] == ']' then Some((List([]), s[2..]))
        else
          (match ReadItems(s[1..])
           case None => None
           case Some((items, rest)) => Some((List(items), rest)))
      case '{' =>
        if |s| > 1 && s[1] == '}' then Some((Object(map[]), s[2..]))
        else
          (match ReadMembers(s[1..])
           case None => None
           case Some((fields, rest)) => Some((Object(fields), rest)))
      case _ =>
        match ReadNumber(s)
        case None => None
        case Some((n, rest)) => Some((Number(n), rest))
  }

  /** One or more items, up to the closing bracket. */
  function ReadItems(s: string): (r: Option<(seq<Json>, string)>)
    ensures r.Some? ==> |r.value.1| < |s|
    decreases |s|, 2
  {
    match ReadValue(s)
    case None => None
    case Some((item, rest)) =>
      if rest != [] && rest[0] == ']' then Some(([item], rest[1..]))
      else if rest != [] && rest[0] == ',' then
        match ReadItems(rest[1..])
        case None => None
        case Some((items, after)) => Some(([item] + items, after))
      else None
  }

  /** One or more members, up to the closing brace; of a repeated key the last one counts. */
  function ReadMembers(s: string): (r: Option<(map<string, Json>, string)>)
    ensures r.Some? ==> |r.value.1| < |s|
    decreases |s|, 2
  {
    if s == [] || s[0] != '\"' then None
    else
      match ReadText(s[1..])
      case None => None
      case Some((key, colon)) =>
        if colon == [] || colon[0] != ':' then None
        else
          match ReadValue(colon[1..])
          case None => None
          case Some((value, rest)) =>
            if rest != [] && rest[0] == '}' then Some((map[key := value], rest[1..]))
            else if rest != [] && rest[0] == ',' then
              match ReadMembers(rest[1..])
              case None => None
              case Some((fields, after)) => Some((map[key := value] + fields, after))
            else None
  }

  // ---------- reading canonical text ----------

  function Fold(acc: nat, s: string): nat
    requires forall i :: 0 <= i < |s| ==> IsDigit(s[i])
    decreases |s|
  {
    if s == [] then acc else assert IsDigit(s[0]); Fold(10 * acc + (s[0] - '0') as nat, s[1..])
  }

  lemma {:induction false} DigitsRead(s: string, x: string, acc: nat)
    requires Ends(x) && forall i :: 0 <= i < |s| ==> IsDigit(s[i])
    ensures ReadDigits(s + x, acc) == (Fold(acc, s), x)
    decreases |s|
  {
    if s == [] {
      assert s + x == x;
    } else {
      DigitsRead(s[1..], x, 10 * acc + (s[0] - '0') as nat);
      assert (s + x)[1..] == s[1..] + x;
    }
  }

  lemma {:induction false} FoldSnoc(acc: nat, s: string, c: char)
    requires IsDigit(c) && forall i :: 0 <= i < |s| ==> IsDigit(s[i])
    ensures Fold(acc, s + [c]) == 10 * Fold(acc, s) + (c - '0') as nat
    decreases |s|
  {
    if s == [] {
      assert s + [c] == [c] && [c][1..] == [];
    } else {
      FoldSnoc(10 * acc + (s[0] - '0') as nat, s[1..], c);
      assert (s + [c])[1..] == s[1..] + [c];
    }
  }

  lemma {:induction false} DecimalFolds(n: nat)
    ensures Fold(0, Decimal(n)) == n
  {
    if n < 10 {
      assert Decimal(n) == [Digit(n)] && [Digit(n)][1..] == [];
    } else {
      DecimalFolds(n / 10);
      FoldSnoc(0, Decimal(n / 10), Digit(n % 10));
    }
  }

  lemma NumberRead(n: int, x: string)
    requires Ends(x)
    ensures ReadNumber(Signed(n) + x) == Some((n, x))
  {
    SignedHead(n, x);
    var d := if n < 0 then -n else n;
    DecimalFolds(d);
    DigitsRead(Decimal(d), x, 0);
    hide Decimal, Fold, ReadDigits;
    assert (Decimal(d) + x)[0] == Decimal(d)[0];
  }

  lemma CharRead(c: char, x: string)
    ensures ReadChar(Escape(c) + x) == Some((c, x))
  {
    var s := Escape(c) + x;
    assert s[|Escape(c)|..] == x;
    if |Escape(c)| == 6 {
      assert s[2..][..4] == Escape(c)[2..];
    }
  }

  lemma {:induction false} TextRead(text: string, x: string)
    ensures ReadText(Escaped(text) + ("\"" + x)) == Some((text, x))
  {
    hide Escape, Escaped, ReadChar, ReadText;
    if text == [] {
      NoTextRead(x);
    } else {
      var rest := Escaped(text[1..]) + ("\"" + x);
      EscapedNext(text, "\"" + x);
      EscapedHead(text, x);
      CharRead(text[0], rest);
      TextRead(text[1..], x);
      TextStep(Escape(text[0]) + rest, text[0], rest, text[1..], x);
      assert text == [text[0]] + text[1..];
    }
  }

  lemma NoTextRead(x: string)
    ensures ReadText(Escaped([]) + ("\"" + x)) == Some(([], x))
  {
    assert Escaped([]) + ("\"" + x) == "\"" + x && ("\"" + x)[1..] == x;
  }

  lemma EscapedNext(text: string, x: string)
    requires text != []
    ensures Escaped(text) + x == Escape(text[0]) + (Escaped(text[1..]) + x)
  {
    hide Escape;
  }

  lemma TextStep(s: string, c: char, rest: string, text: string, x: string)
    requires s != [] && s[0] != '\"' && ReadChar(s) == Some((c, rest)) && ReadText(rest) == Some((text, x))
    ensures ReadText(s) == Some(([c] + text, x))
  {
    hide ReadChar;
  }

  /** Every value is read back from its canonical text, up to where the text ends. */
  lemma {:induction false} ValueRead(v: Json, x: string)
    requires Ends(x)
    ensures ReadValue(Dumps(v) + x) == Some((v, x))
    decreases v, Width(v) + 1, 1
  {
    var s := Dumps(v) + x;
    hide ReadValue;
    match v
    case Null => WordRead("null", x);
    case Bool(flag) => WordRead(Dumps(v), x);
    case Number(n) => NumberValueRead(n, x);
    case Str(text) =>
      TextRead(text, x);
      TextValueRead(text, x);
    case List(items) => ListRead(v, x);
    case Object(fields) => ObjectRead(v, x);
  }

  lemma {:induction false} ListRead(v: Json, x: string)
    requires v.List? && Ends(x)
    ensures ReadValue(Dumps(v) + x) == Some((v, x))
    decreases v, |v.items| + 1, 0
  {
    var s := Dumps(v) + x;
    Regroup("[", Items(v, 0), x);
    assert s[1..] == Items(v, 0) + x;
    ItemsHead(v, 0);
    SameHead(Items(v, 0), Items(v, 0), x, x);
    hide Items, ReadItems;
    assert s[1] == Items(v, 0)[0];
    if v.items == [] {
      assert s[2..] == s[1..][1..] == x;
    } else {
      ItemsRead(v, 0, x);
      assert v.items[0..] == v.items;
    }
  }

  lemma {:induction false} ObjectRead(v: Json, x: string)
    requires v.Object? && Ends(x)
    ensures ReadValue(Dumps(v) + x) == Some((v, x))
    decreases v, |v.fields| + 1, 0
  {
    hide Members, ReadMembers, From, Keys, Ends, ReadValue;
    Regroup("{", Members(v, 0), x);
    MembersHead(v, 0);
    LastMember(v);
    if v.fields == map[] {
      EmptyObjectRead(x);
    } else {
      MembersRead(v, 0, x);
      AllFrom(v);
      ObjectStep(Members(v, 0) + x, Members(v, 0)[0], v.fields, x);
    }
  }

  lemma EmptyObjectRead(x: string)
    ensures ReadValue("{" + ("}" + x)) == Some((Object(map[]), x))
  {
    var s := "{" + ("}" + x);
    assert s[0] == '{' && s[1] == '}' && s[2..] == x;
  }

  lemma ObjectStep(s: string, head: char, fields: map<string, Json>, x: string)
    requires s != [] && s[0] == head != '}' && ReadMembers(s) == Some((fields, x))
    ensures ReadValue("{" + s) == Some((Object(fields), x))
  {
    hide ReadMembers;
    assert ("{" + s)[0] == '{' && ("{" + s)[1] == head && ("{" + s)[1..] == s;
  }

  lemma TextValueRead(text: string, x: string)
    requires ReadText(Escaped(text) + ("\"" + x)) == Some((text, x))
    ensures ReadValue(Quoted(text) + x) == Some((Str(text), x))
  {
    QuotedParts(text, x);
    hide ReadText, Quoted, Escaped;
  }

  lemma WordRead(word: string, x: string)
    requires word == "null" || word == "true" || word == "false"
    ensures ReadValue(word + x) ==
      Some((if word == "null" then Null else Bool(word == "true"), x))
  {
    var s := word + x;
    assert s[..|word|] == word && s[|word|..] == x;
  }

  lemma NumberValueRead(n: int, x: string)
    requires Ends(x)
    ensures ReadValue(Signed(n) + x) == Some((Number(n), x))
  {
    NumberRead(n, x);
    SignedHead(n, x);
    DumpsHead(Number(n));
    hide Decimal, ReadNumber;
  }

  lemma {:induction false} ItemsRead(v: Json, k: nat, x: string)
    requires v.List? && k < |v.items|
    ensures ReadItems(Items(v, k) + x) == Some((v.items[k..], x))
    decreases v, |v.items| - k, 2
  {
    hide Items, Dumps, ReadItems, ReadValue, Rest, Ends, Width;
    var more, next := k + 1 < |v.items|, Items(v, k + 1);
    var rest := Rest(more, next);
    ItemSplits(v, k, x);
    ItemsHead(v, k + 1);
    RestEnds(more, next, x);
    RestParts(more, next, x, "]");
    ValueRead(v.items[k], rest + x);
    ItemsStep(Items(v, k) + x, v.items[k], rest + x);
    assert v.items[k..] == [v.items[k]] + v.items[k + 1..];
    if more {
      ItemsRead(v, k + 1, x);
    } else {
      assert v.items[k..] == [v.items[k]];
    }
  }

  lemma RestParts(more: bool, next: string, x: string, last: string)
    requires |last| == 1 && (more || next == last)
    ensures var s := Rest(more, next) + x;
      && s != [] && s[0] == (if more then ',' else last[0]) && s[1..] == (if more then next + x else x)
  {
  }

  lemma ItemsStep(s: string, item: Json, rest: string)
    requires ReadValue(s) == Some((item, rest)) && rest != []
    ensures rest[0] == ']' ==> ReadItems(s) == Some(([item], rest[1..]))
    ensures rest[0] == ',' && ReadItems(rest[1..]).Some? ==>
      ReadItems(s) == Some(([item] + ReadItems(rest[1..]).value.0, ReadItems(rest[1..]).value.1))
  {
    hide ReadValue;
  }

  /** The members listed from `k` on. */
  function From(v: Json, k: nat): map<string, Json>
    requires v.Object? && k <= |v.fields|
    decreases |v.fields| - k
  {
    if k == |v.fields| then map[]
    else
      assert Keys(v)[k] in Keys(v);
      map[Keys(v)[k] := v.fields[Keys(v)[k]]] + From(v, k + 1)
  }

  lemma {:induction false} FromHolds(v: Json, k: nat)
    requires v.Object? && k <= |v.fields|
    ensures forall key :: key in From(v, k) ==> key in v.fields && From(v, k)[key] == v.fields[key]
    ensures forall i :: k <= i < |v.fields| ==> Keys(v)[i] in From(v, k)
    decreases |v.fields| - k
  {
    hide Keys;
    if k < |v.fields| {
      FromHolds(v, k + 1);
      assert Keys(v)[k] in Keys(v);
    }
  }

  lemma AllFrom(v: Json)
    requires v.Object?
    ensures From(v, 0) == v.fields
  {
    FromHolds(v, 0);
    hide From, Keys;
    forall key | key in v.fields
      ensures key in From(v, 0)
    {
      assert key in Keys(v);
      var i :| 0 <= i < |Keys(v)| && Keys(v)[i] == key;
    }
  }

  /** A whole text and nothing after it. */
  function ReadJson(s: string): Option<Json> {
    match ReadValue(s)
    case None => None
    case Some((v, rest)) => if rest == [] then Some(v) else None
  }

  /** The round trip. */
  lemma CanonicalTextRead(v: Json)
    ensures ReadJson(Dumps(v)) == Some(v)
  {
    ValueRead(v, []);
    hide ReadValue, Dumps;
    assert Dumps(v) + [] == Dumps(v);
  }

  lemma {:induction false} MembersRead(v: Json, k: nat, x: string)
    requires v.Object? && k < |v.fields|
    ensures ReadMembers(Members(v, k) + x) == Some((From(v, k), x))
    decreases v, |v.fields| - k, 2
  {
    hide Members, Dumps, Keys, ReadMembers, ReadValue, ReadText, Escaped, Quoted, Rest, From, Ends, Width;
    var more, next := k + 1 < |v.fields|, Members(v, k + 1);
    var rest := Rest(more, next);
    var key, value := MemberSplits(v, k, x);
    MembersHead(v, k + 1);
    RestEnds(more, next, x);
    LastMember(v);
    RestParts(more, next, x, "}");
    var colon := ":" + (Dumps(value) + (rest + x));
    QuotedParts(key, colon);
    FromNext(v, k);
    assert colon[1..] == Dumps(value) + (rest + x);
    ValueRead(value, rest + x);
    TextRead(key, colon);
    MembersStep(Members(v, k) + x, key, colon, value, rest + x);
    if more {
      MembersRead(v, k + 1, x);
    } else {
      assert map[key := value] + map[] == map[key := value];
    }
  }

  lemma QuotedParts(key: string, x: string)
    ensures var s := Quoted(key) + x; s != [] && s[0] == '\"' && s[1..] == Escaped(key) + ("\"" + x)
  {
    hide Escaped;
  }

  lemma FromNext(v: Json, k: nat)
    requires v.Object? && k < |v.fields|
    ensures Keys(v)[k] in v.fields && From(v, k) == map[Keys(v)[k] := v.fields[Keys(v)[k]]] + From(v, k + 1)
    ensures From(v, |v.fields|) == map[]
  {
    hide Keys;
    assert Keys(v)[k] in Keys(v);
  }

  lemma LastMember(v: Json)
    requires v.Object?
    ensures Members(v, |v.fields|) == "}"
  {
  }

  lemma MembersStep(s: string, key: string, colon: string, value: Json, rest: string)
    requires s != [] && s[0] == '\"' && ReadText(s[1..]) == Some((key, colon)) && colon != [] && colon[0] == ':'
    requires ReadValue(colon[1..]) == Some((value, rest)) && rest != []
    ensures rest[0] == '}' ==> ReadMembers(s) == Some((map[key := value], rest[1..]))
    ensures rest[0] == ',' && ReadMembers(rest[1..]).Some? ==>
      ReadMembers(s) ==
      Some((map[key := value] + ReadMembers(rest[1..]).value.0, ReadMembers(rest[1..]).value.1))
  {
    hide ReadValue, ReadText;
  }
}
