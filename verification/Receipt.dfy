/** The sealed receipt of `validator_receipt.py`: what its digest covers, and what verifying it means. */
module Receipt {
  import opened CanonicalJson
  import opened Results

  type Fields = map<string, Json>

  datatype ReceiptError = ProhibitedField | NotSealed

  const SCHEMA: string := "roko.validator-transition-status.v2"

  const SENSITIVE: seq<string> :=
    ["secret", "private", "seed", "mnemonic", "phrase", "suri", "keystore", "vault", "openbao", "token", "password",
     "cookie", "approle", "nodekey"]

  // ---------- the scan for prohibited fields ----------

  /** The lower-case ASCII letter that `re.I` takes a character for: four letters outside ASCII fold into it. */
  function Fold(c: char): char {
    if 'A' <= c <= 'Z' then c - 'A' + 'a'
    else if c == '\U{0130}' || c == '\U{0131}' then 'i'
    else if c == '\U{017F}' then 's'
    else if c == '\U{212A}' then 'k'
    else c
  }

  /** The word occurs from position `i` on, in any case. */
  predicate OccursAt(word: string, s: string, i: nat) {
    i + |word| <= |s| && forall j :: 0 <= j < |word| ==> Fold(s[i + j]) == word[j]
  }

  predicate Prohibited(key: string) {
    && key != "hasSessionKeys"
    && exists w, i :: 0 <= w < |SENSITIVE| && 0 <= i <= |key| && OccursAt(SENSITIVE[w], key, i)
  }

  /** `scan_prohibited`, which fails on the first prohibited field. */
  predicate Clean(v: Json) {
    match v
    case List(items) => forall i :: 0 <= i < |items| ==> Clean(items[i])
    case Object(fields) => forall k :: k in fields ==> !Prohibited(k) && Clean(fields[k])
    case _ => true
  }

  /** Words are found anywhere and in any case; one name that holds none of the secrets is exempt. */
  lemma ProhibitedExamples()
    ensures Prohibited("SECRET") && Prohibited("nodeKey") && Prohibited("aSeed") && Prohibited("tokens")
    ensures !Prohibited("hasSessionKeys")
  {
    assert OccursAt(SENSITIVE[0], "SECRET", 0) && OccursAt(SENSITIVE[13], "nodeKey", 0);
    assert OccursAt(SENSITIVE[2], "aSeed", 1) && OccursAt(SENSITIVE[9], "tokens", 0);
    assert |"hasSessionKeys"| == 14;
    assert "SECRET" != "hasSessionKeys" && "nodeKey" != "hasSessionKeys" by {
      assert |"SECRET"| == 6 && |"nodeKey"| == 7;
    }
    assert |"aSeed"| == 5 && |"tokens"| == 6;
  }

  datatype Step = Index(i: nat) | Field(key: string)

  function At(v: Json, path: seq<Step>): Option<Json> {
    if path == [] then Some(v)
    else
      match path[0]
      case Index(i) => if v.List? && i < |v.items| then At(v.items[i], path[1..]) else None
      case Field(key) => if v.Object? && key in v.fields then At(v.fields[key], path[1..]) else None
  }

  /** The scan passes exactly when no path of any depth ends in a prohibited field. */
  lemma CleanIffNoPath(v: Json)
    ensures Clean(v) <==> forall path, key :: At(v, path + [Field(key)]).Some? ==> !Prohibited(key)
  {
    if Clean(v) {
      forall path, key | At(v, path + [Field(key)]).Some?
        ensures !Prohibited(key)
      {
        CleanAlong(v, path, key);
      }
    } else {
      var path, key := OffendingPath(v);
    }
  }

  lemma {:induction false} CleanAlong(v: Json, path: seq<Step>, key: string)
    requires Clean(v) && At(v, path + [Field(key)]).Some?
    ensures !Prohibited(key)
    decreases |path|
  {
    hide Prohibited;
    if path != [] {
      assert (path + [Field(key)])[1..] == path[1..] + [Field(key)];
      match path[0]
      case Index(i) =>
        CleanAlong(v.items[i], path[1..], key);
      case Field(k) =>
        CleanAlong(v.fields[k], path[1..], key);
    }
  }

  lemma {:induction false} OffendingPath(v: Json) returns (path: seq<Step>, key: string)
    requires !Clean(v)
    ensures At(v, path + [Field(key)]).Some? && Prohibited(key)
    decreases v
  {
    hide Prohibited;
    match v
    case List(items) =>
      var i :| 0 <= i < |items| && !Clean(items[i]);
      var rest;
      rest, key := OffendingPath(items[i]);
      path := [Index(i)] + rest;
      assert (path + [Field(key)])[1..] == rest + [Field(key)];
    case Object(fields) =>
      var k :| k in fields && (Prohibited(k) || !Clean(fields[k]));
      if Prohibited(k) {
        path, key := [], k;
        assert [Field(k)][1..] == [];
        assert path + [Field(key)] == [Field(k)];
      } else {
        var rest;
        rest, key := OffendingPath(fields[k]);
        path := [Field(k)] + rest;
        assert (path + [Field(key)])[1..] == rest + [Field(key)];
      }
  }

  // ---------- digest, seal, verification ----------

  /** `digest`: SHA-256 of the canonical text of everything but the seal itself. */
  function Digest(sha256: string -> string, fields: Fields): string {
    "sha256:" + sha256(Covered(fields))
  }

  function Covered(fields: Fields): string {
    Dumps(Object(fields - {"integrity"}))
  }

  function Integrity(sha256: string -> string, fields: Fields): Json {
    Object(map["algorithm" := Str("sha256"), "digest" := Str(Digest(sha256, fields))])
  }

  /** `status["integrity"] = ...`, in place of any earlier seal. */
  function Seal(sha256: string -> string, fields: Fields): Fields {
    fields["integrity" := Integrity(sha256, fields)]
  }

  predicate HasSchema(fields: Fields) {
    "schema" in fields && fields["schema"] == Str(SCHEMA)
  }

  function VerifyReceipt(sha256: string -> string, fields: Fields): Result<Fields, ReceiptError> {
    if !Clean(Object(fields)) then Err(ProhibitedField)
    else if !HasSchema(fields) || "integrity" !in fields || fields["integrity"] != Integrity(sha256, fields)
    then Err(NotSealed)
    else Ok(fields)
  }

  /** Two different texts under one hash. */
  predicate Collide(sha256: string -> string, a: string, b: string) {
    a != b && sha256(a) == sha256(b)
  }

  /** The digest does not cover the seal, whatever stands there or nothing. */
  lemma DigestIgnoresSeal(sha256: string -> string, fields: Fields, seal: Json)
    ensures Digest(sha256, fields["integrity" := seal]) == Digest(sha256, fields)
    ensures Digest(sha256, fields - {"integrity"}) == Digest(sha256, fields)
  {
    assert fields["integrity" := seal] - {"integrity"} == fields - {"integrity"};
    assert fields - {"integrity"} - {"integrity"} == fields - {"integrity"};
  }

  /** It covers everything else: equal digests mean equal fields, the seal apart, or a collision of the hash. */
  lemma DigestBinds(sha256: string -> string, a: Fields, b: Fields)
    ensures Digest(sha256, a) == Digest(sha256, b) <==>
      a - {"integrity"} == b - {"integrity"} || Collide(sha256, Covered(a), Covered(b))
  {
    DumpsInjective(Object(a - {"integrity"}), Object(b - {"integrity"}));
    hide Dumps;
    assert Digest(sha256, a)[7..] == sha256(Covered(a)) && Digest(sha256, b)[7..] == sha256(Covered(b));
  }

  /** Sealing again changes nothing. */
  lemma SealIdempotent(sha256: string -> string, fields: Fields)
    ensures Seal(sha256, Seal(sha256, fields)) == Seal(sha256, fields)
  {
    DigestIgnoresSeal(sha256, fields, Integrity(sha256, fields));
    hide Digest;
  }

  /** How the sensitive words begin; each has at least four letters. */
  predicate BeginsWord(a: char, b: char) {
    match a
    case 's' => b == 'e' || b == 'u'
    case 'p' => b == 'r' || b == 'h' || b == 'a'
    case 'm' => b == 'n'
    case 'k' => b == 'e'
    case 'v' => b == 'a'
    case 'o' => b == 'p'
    case 't' => b == 'o'
    case 'c' => b == 'o'
    case 'a' => b == 'p'
    case 'n' => b == 'o'
    case _ => false
  }

  lemma WordBeginnings(w: nat)
    requires w < |SENSITIVE|
    ensures |SENSITIVE[w]| >= 4 && BeginsWord(SENSITIVE[w][0], SENSITIVE[w][1])
  {
  }

  lemma AllowedByBeginnings(key: string)
    requires forall i :: 0 <= i && i + 4 <= |key| ==> !BeginsWord(Fold(key[i]), Fold(key[i + 1]))
    ensures !Prohibited(key)
  {
    hide BeginsWord, Fold;
    if w, i :| 0 <= w < |SENSITIVE| && 0 <= i <= |key| && OccursAt(SENSITIVE[w], key, i) {
      WordBeginnings(w);
      assert Fold(key[i + 0]) == SENSITIVE[w][0] && Fold(key[i + 1]) == SENSITIVE[w][1];
    }
  }

  /** The names of the seal are not themselves prohibited. */
  lemma SealNamesAllowed()
    ensures !Prohibited("integrity") && !Prohibited("algorithm") && !Prohibited("digest")
  {
    AllowedByBeginnings("integrity");
    AllowedByBeginnings("algorithm");
    AllowedByBeginnings("digest");
  }

  /** What a seal looks like: the names, and the hash of the canonical text of everything else. */
  lemma SealWritten(sha256: string -> string, fields: Fields)
    ensures var sealed := Seal(sha256, fields);
      && sealed - {"integrity"} == fields - {"integrity"} && "integrity" in sealed
      && sealed["integrity"] == Object(map[
           "algorithm" := Str("sha256"),
           "digest" := Str("sha256:" + sha256(Dumps(Object(sealed - {"integrity"}))))])
  {
    DigestIgnoresSeal(sha256, fields, Integrity(sha256, fields));
    hide Dumps;
    assert Seal(sha256, fields) - {"integrity"} == fields - {"integrity"};
  }

  /** Sealing makes any fields verify, whatever seal they carried, exactly when they have the schema and no prohibited
      field outside that seal. */
  lemma SealVerifiesIff(sha256: string -> string, fields: Fields)
    ensures VerifyReceipt(sha256, Seal(sha256, fields)).Ok? <==>
      HasSchema(fields) && Clean(Object(fields - {"integrity"}))
  {
    DigestIgnoresSeal(sha256, fields, Integrity(sha256, fields));
    SealNamesAllowed();
    hide Digest, Prohibited;
    var sealed, bare := Seal(sha256, fields), fields - {"integrity"};
    assert Clean(Integrity(sha256, fields));
    assert forall k :: k in sealed <==> k == "integrity" || k in bare;
    assert forall k :: k in bare ==> sealed[k] == bare[k];
  }

  /** What verifies is exactly what sealing leaves as it is, with the schema and no prohibited field. */
  lemma VerifiesIffSealed(sha256: string -> string, fields: Fields)
    ensures VerifyReceipt(sha256, fields).Ok? <==>
      && Clean(Object(fields)) && Seal(sha256, fields) == fields
      && "schema" in fields && fields["schema"] == Str("roko.validator-transition-status.v2")
  {
    hide Clean, Integrity;
    if "integrity" in fields && fields["integrity"] == Integrity(sha256, fields) {
      assert Seal(sha256, fields) == fields;
    }
    if Seal(sha256, fields) == fields {
      assert "integrity" in fields && fields["integrity"] == Integrity(sha256, fields);
    }
  }

  /** Under the seal of a receipt that verifies nothing verifies but that receipt, short of a collision of the hash: no
      field can be changed, added or removed, at any depth. */
  lemma SealBinds(sha256: string -> string, receipt: Fields, other: Fields)
    requires VerifyReceipt(sha256, receipt).Ok?
    requires "integrity" in other && other["integrity"] == receipt["integrity"]
    ensures VerifyReceipt(sha256, other).Ok? <==>
      || other == receipt
      || (Clean(Object(other)) && HasSchema(other) && Collide(sha256, Covered(other), Covered(receipt)))
  {
    hide Clean, Digest, Collide, Covered;
    assert Integrity(sha256, receipt).fields["digest"] == Str(Digest(sha256, receipt));
    assert Integrity(sha256, other).fields["digest"] == Str(Digest(sha256, other));
    DigestBinds(sha256, other, receipt);
    if other - {"integrity"} == receipt - {"integrity"} {
      SameRest(other, receipt);
    }
  }

  lemma SameRest(a: Fields, b: Fields)
    requires a - {"integrity"} == b - {"integrity"} && "integrity" in a && "integrity" in b
    requires a["integrity"] == b["integrity"]
    ensures a == b
  {
    forall k
      ensures k in a <==> k in b
      ensures k in a && k in b ==> a[k] == b[k]
    {
      assert k != "integrity" ==> (k in a <==> k in a - {"integrity"}) && (k in b <==> k in b - {"integrity"});
      assert k != "integrity" && k in a ==> a[k] == (a - {"integrity"})[k] == b[k];
    }
  }
}
