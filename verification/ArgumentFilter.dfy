/** Sanitizing node arguments: an index-jumping loop that equals a parse of each position on its own. */
module ArgumentFilter {
  const VALUE_ALLOWED_FLAGS: set<string> := {
    "--chain", "--pruning", "--state-pruning", "--blocks-pruning", "--rpc-methods",
    "--rpc-port", "--port", "--prometheus-port", "--database", "--db-cache",
    "--trie-cache-size", "--in-peers", "--in-peers-light", "--out-peers", "--sync",
    "--execution", "--wasm-execution", "--max-runtime-instances", "--rpc-max-connections",
    "--rpc-max-request-size", "--rpc-max-response-size", "--rpc-rate-limit", "--base-path",
    "--timing-profile", "--timesync-chrony-socket", "--timesync-participation-profile",
    "--timesync-convergence-threshold-ns", "--timesync-lucky-threshold-ns", "--log"
  }
  const PATH_FLAGS: set<string> := {"--chain", "--base-path", "--timesync-chrony-socket"}
  const REDACTED := "[redacted]"
  const MAX_FLAGS: nat := 128
  const MAX_VALUE: nat := 128

  datatype FlagValue = Present | Shown(s: string)

  datatype Entry = Entry(flag: string, value: FlagValue)

  /** `token.partition("=")`. */
  datatype Parts = Parts(flag: string, hasInline: bool, inline: string)

  predicate IsFlag(token: string) {
    |token| >= 2 && token[0] == '-' && token[1] == '-'
  }

  function Partition(token: string): Parts {
    if token == [] then Parts([], false, [])
    else if token[0] == '=' then Parts([], true, token[1..])
    else var rest := Partition(token[1..]); rest.(flag := [token[0]] + rest.flag)
  }

  /** `_clean_value`; `scrub` hides home directories in a path. */
  function CleanValue(flag: string, value: string, scrub: string -> string): string {
    if flag !in VALUE_ALLOWED_FLAGS then REDACTED
    else if flag in PATH_FLAGS && '/' in value then (if scrub(value) != "" then scrub(value) else REDACTED)
    else if |value| > MAX_VALUE then value[..MAX_VALUE] else value
  }

  // ---------- each position on its own ----------

  function EntryAt(argv: seq<string>, i: nat, scrub: string -> string): Entry
    requires i < |argv|
  {
    var parts := Partition(argv[i]);
    if parts.hasInline then Entry(parts.flag, Shown(CleanValue(parts.flag, parts.inline, scrub)))
    else if i + 1 < |argv| && !IsFlag(argv[i + 1]) then
      Entry(parts.flag, Shown(CleanValue(parts.flag, argv[i + 1], scrub)))
    else Entry(parts.flag, Present)
  }

  function ParseFrom(argv: seq<string>, i: nat, scrub: string -> string): seq<Entry>
    requires i <= |argv|
    decreases |argv| - i
  {
    if i == |argv| then []
    else (if IsFlag(argv[i]) then [EntryAt(argv, i, scrub)] else []) + ParseFrom(argv, i + 1, scrub)
  }

  function FirstEntries(entries: seq<Entry>): seq<Entry> {
    if |entries| > MAX_FLAGS then entries[..MAX_FLAGS] else entries
  }

  lemma FirstEntriesCut(all: seq<Entry>)
    ensures FirstEntries(all) <= all && |FirstEntries(all)| == if |all| > 128 then 128 else |all|
  {
  }

  /** The loop consumes a value together with its flag, yet reports exactly what each position says by itself, cut at
      the limit. */
  method SanitizeNodeArguments(argv: seq<string>, scrub: string -> string) returns (flags: seq<Entry>)
    ensures flags == FirstEntries(ParseFrom(argv, 0, scrub))
    ensures |flags| <= MAX_FLAGS
  {
    hide Partition, CleanValue;
    flags := [];
    var index := 0;
    while index < |argv| && |flags| < MAX_FLAGS
      invariant index <= |argv| && |flags| <= MAX_FLAGS
      invariant flags + ParseFrom(argv, index, scrub) == ParseFrom(argv, 0, scrub)
    {
      var token := argv[index];
      ghost var rest := ParseFrom(argv, index + 1, scrub);
      index := index + 1;
      if !IsFlag(token) {
        assert ParseFrom(argv, index - 1, scrub) == [] + rest == rest;
        continue;
      }
      ghost var entry := EntryAt(argv, index - 1, scrub);
      assert flags + ([entry] + rest) == (flags + [entry]) + rest;
      var parts := Partition(token);
      if parts.hasInline {
        flags := flags + [Entry(parts.flag, Shown(CleanValue(parts.flag, parts.inline, scrub)))];
      } else if index < |argv| && !IsFlag(argv[index]) {
        flags := flags + [Entry(parts.flag, Shown(CleanValue(parts.flag, argv[index], scrub)))];
        assert rest == [] + ParseFrom(argv, index + 1, scrub) == ParseFrom(argv, index + 1, scrub);
        index := index + 1;
      } else {
        flags := flags + [Entry(parts.flag, Present)];
      }
    }
  }

  // ---------- what cannot be learned ----------

  /** The value of this flag, if it has one, is never shown. */
  predicate Hides(token: string) {
    IsFlag(token) && Partition(token).flag !in VALUE_ALLOWED_FLAGS
  }

  /** The next token, if it is not a flag, is shown as this flag's value. */
  predicate ShowsNext(token: string) {
    IsFlag(token) && !Partition(token).hasInline && Partition(token).flag in VALUE_ALLOWED_FLAGS
  }

  /** The tokens at `i` are the same, or inline values of one hidden flag, or both no flags and not shown. */
  predicate SamePublicToken(a: seq<string>, b: seq<string>, i: nat)
    requires i < |a| && i < |b|
  {
    || a[i] == b[i]
    || (Hides(a[i]) && Hides(b[i]) && Partition(a[i]).hasInline && Partition(b[i]).hasInline
        && Partition(a[i]).flag == Partition(b[i]).flag)
    || (!IsFlag(a[i]) && !IsFlag(b[i]) && (i > 0 ==> !ShowsNext(a[i - 1]) && !ShowsNext(b[i - 1])))
  }

  ghost predicate SamePublicPart(a: seq<string>, b: seq<string>) {
    |a| == |b| && forall i :: 0 <= i < |a| ==> SamePublicToken(a, b, i)
  }

  lemma EntriesAgree(a: seq<string>, b: seq<string>, i: nat, scrub: string -> string)
    requires SamePublicPart(a, b) && i < |a|
    ensures |a| == |b| && (IsFlag(a[i]) <==> IsFlag(b[i]))
    ensures IsFlag(a[i]) ==> EntryAt(a, i, scrub) == EntryAt(b, i, scrub)
  {
    hide Partition;
    assert SamePublicToken(a, b, i);
    if i + 1 < |a| {
      assert SamePublicToken(a, b, i + 1);
    }
  }

  lemma {:induction false} ParsesAgree(a: seq<string>, b: seq<string>, i: nat, scrub: string -> string)
    requires SamePublicPart(a, b) && i <= |a|
    ensures ParseFrom(a, i, scrub) == ParseFrom(b, i, scrub)
    decreases |a| - i
  {
    assert |a| == |b|;
    hide EntryAt, SamePublicToken, IsFlag, SamePublicPart;
    if i < |a| {
      EntriesAgree(a, b, i, scrub);
      ParsesAgree(a, b, i + 1, scrub);
    }
  }

  /** Two command lines that differ only in values of flags off the allow list, inline or in the next token, or in
      stray words no flag shows, are sanitized to the same output. */
  lemma SanitizedOutputHidesValues(a: seq<string>, b: seq<string>, scrub: string -> string)
    requires SamePublicPart(a, b)
    ensures FirstEntries(ParseFrom(a, 0, scrub)) == FirstEntries(ParseFrom(b, 0, scrub))
  {
    ParsesAgree(a, b, 0, scrub);
  }

  /** A value on show belongs to an allow-listed flag or is the redaction mark; each entry is a flag of the input. */
  lemma {:induction false} ShownValuesAllowed(argv: seq<string>, i: nat, scrub: string -> string, n: nat)
    requires i <= |argv| && n < |ParseFrom(argv, i, scrub)|
    ensures var e := ParseFrom(argv, i, scrub)[n];
      && (e.value.Present? || e.value == Shown(REDACTED) || e.flag in VALUE_ALLOWED_FLAGS)
      && exists k: nat :: i <= k < |argv| && IsFlag(argv[k]) && e == EntryAt(argv, k, scrub)
    decreases |argv| - i
  {
    hide Partition;
    if IsFlag(argv[i]) && n == 0 {
      assert ParseFrom(argv, i, scrub)[0] == EntryAt(argv, i, scrub);
    } else {
      ShownValuesAllowed(argv, i + 1, scrub, if IsFlag(argv[i]) then n - 1 else n);
    }
  }

  // ---------- the output in terms of the command line ----------

  /** How a given value comes out: redacted unless its flag is allowed; a path as the scrubber returns it, or redacted
      if that is nothing; anything else as its first 128 characters. */
  ghost predicate ComesOut(shown: string, flag: string, given: string, scrub: string -> string) {
    && (flag !in VALUE_ALLOWED_FLAGS ==> shown == "[redacted]")
    && (flag in VALUE_ALLOWED_FLAGS && HoldsPath(flag, given) ==>
          shown == if scrub(given) == [] then "[redacted]" else scrub(given))
    && (flag in VALUE_ALLOWED_FLAGS && !HoldsPath(flag, given) ==>
          shown <= given && |shown| == if |given| > 128 then 128 else |given|)
  }

  predicate HoldsPath(flag: string, given: string) {
    (flag == "--chain" || flag == "--base-path" || flag == "--timesync-chrony-socket") && '/' in given
  }

  /** The token starts with two dashes. */
  predicate Dashed(token: string) {
    token != [] && token[0] == '-' && token[1..] != [] && token[1] == '-'
  }

  /** The first equals sign of the token is at `c`. */
  ghost predicate CutAt(token: string, c: nat) {
    c < |token| && token[c] == '=' && forall j :: 0 <= j < c ==> token[j] != '='
  }

  /** What the flag at position `k` is reported as: its part before an equals sign with the rest as value, or else the
      next token as value unless that is a flag too. */
  ghost predicate Reports(e: Entry, argv: seq<string>, k: nat, scrub: string -> string)
    requires k < |argv|
  {
    var token := argv[k];
    if '=' in token then
      exists c: nat :: CutAt(token, c) && e.flag == token[..c]
        && e.value.Shown? && ComesOut(e.value.s, e.flag, token[c + 1..], scrub)
    else if k + 1 < |argv| && !Dashed(argv[k + 1]) then
      e.flag == token && e.value.Shown? && ComesOut(e.value.s, e.flag, argv[k + 1], scrub)
    else e == Entry(token, Present)
  }

  lemma {:induction false} PartitionCuts(token: string) returns (c: nat)
    ensures var p := Partition(token);
      if '=' in token then CutAt(token, c) && p == Parts(token[..c], true, token[c + 1..])
      else p == Parts(token, false, [])
  {
    if token == [] || token[0] == '=' {
      c := 0;
    } else {
      c := PartitionCuts(token[1..]);
      CutsNext(token, c);
      hide CutAt;
      c := if '=' in token then c + 1 else c;
    }
  }

  /** A first character that is no equals sign moves the cut by one. */
  lemma CutsNext(token: string, c: nat)
    requires token != [] && token[0] != '='
    ensures '=' in token <==> '=' in token[1..]
    ensures CutAt(token[1..], c) ==>
      && CutAt(token, c + 1)
      && token[..c + 1] == [token[0]] + token[1..][..c] && token[c + 2..] == token[1..][c + 1..]
    ensures token == [token[0]] + token[1..]
  {
    var rest := token[1..];
    assert token == [token[0]] + rest;
  }

  lemma ValueComesOut(flag: string, given: string, scrub: string -> string)
    ensures ComesOut(CleanValue(flag, given, scrub), flag, given, scrub)
  {
    assert flag in PATH_FLAGS <==>
      flag == "--chain" || flag == "--base-path" || flag == "--timesync-chrony-socket";
  }

  lemma EntryReports(argv: seq<string>, k: nat, scrub: string -> string)
    requires k < |argv|
    ensures Reports(EntryAt(argv, k, scrub), argv, k, scrub)
  {
    var c := PartitionCuts(argv[k]);
    var p := Partition(argv[k]);
    if p.hasInline {
      ValueComesOut(p.flag, p.inline, scrub);
    } else if k + 1 < |argv| {
      ValueComesOut(p.flag, argv[k + 1], scrub);
    }
    hide Partition, CleanValue, ComesOut;
  }

  /** Every flag of the command line is reported, in order, each at its own position. */
  lemma {:induction false} FlagsReported(argv: seq<string>, i: nat, scrub: string -> string)
    returns (at: seq<nat>)
    requires i <= |argv|
    ensures |at| == |ParseFrom(argv, i, scrub)|
    ensures forall n :: 0 <= n < |at| ==>
      i <= at[n] < |argv| && Reports(ParseFrom(argv, i, scrub)[n], argv, at[n], scrub)
    ensures forall m, n :: 0 <= m < n < |at| ==> at[m] < at[n]
    ensures forall k: nat :: i <= k < |argv| ==> (Dashed(argv[k]) <==> k in at)
    decreases |argv| - i
  {
    hide Reports, EntryAt, ParseFrom;
    if i == |argv| {
      at := [];
      NothingParsed(argv, scrub);
    } else {
      at := FlagsReported(argv, i + 1, scrub);
      EntryReports(argv, i, scrub);
      ParseNext(argv, i, scrub);
      assert IsFlag(argv[i]) <==> Dashed(argv[i]);
      hide IsFlag, Dashed;
      if IsFlag(argv[i]) {
        at := [i] + at;
      }
    }
  }

  lemma NothingParsed(argv: seq<string>, scrub: string -> string)
    ensures ParseFrom(argv, |argv|, scrub) == []
  {
  }

  lemma ParseNext(argv: seq<string>, i: nat, scrub: string -> string)
    requires i < |argv|
    ensures ParseFrom(argv, i, scrub) ==
      if IsFlag(argv[i]) then [EntryAt(argv, i, scrub)] + ParseFrom(argv, i + 1, scrub)
      else ParseFrom(argv, i + 1, scrub)
  {
    hide IsFlag, EntryAt;
  }
}
