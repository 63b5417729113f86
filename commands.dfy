/**
 * The operator commands `.reagentbank audit` and `.reagentbank purge`: splitting the argument
 * line into the account id and `key=value` options, the decimal parse of the values, the
 * defaulting and clamping of the audit options, and the purge's filter over the audit table.
 */
module Commands {
  import opened Wrappers
  import opened Numeric
  import opened Audit

  // ======== words ========

  /** The characters `std::isspace` accepts in the "C" locale. */
  predicate IsSpace(c: char) {
    c == ' ' || c == '\t' || c == '\n' || c == '\r' || c == '\U{B}' || c == '\U{C}'
  }

  /** A word as `operator>>` reads it into a `std::string`: non-empty, without whitespace. */
  predicate IsWord(t: string) {
    t != [] && forall j | 0 <= j < |t| :: !IsSpace(t[j])
  }

  /** The length of the run of non-space characters that `s` starts with. */
  function WordLen(s: string): (n: nat)
    ensures n <= |s|
    ensures forall j | 0 <= j < n :: !IsSpace(s[j])
    ensures n == |s| || IsSpace(s[n])
  {
    if s == [] || IsSpace(s[0]) then 0 else 1 + WordLen(s[1..])
  }

  /** The words of `s`, in order: what repeated `iss >> token` extracts from an `istringstream` over `s`. */
  function Tokens(s: string): (ts: seq<string>)
    ensures forall i | 0 <= i < |ts| :: IsWord(ts[i])
    decreases |s|
  {
    if s == [] then []
    else if IsSpace(s[0]) then Tokens(s[1..])
    else
      var n := WordLen(s);
      [s[..n]] + Tokens(s[n..])
  }

  /** Words joined by single spaces. */
  function Join(ts: seq<string>): string {
    if ts == [] then [] else if |ts| == 1 then ts[0] else ts[0] + [' '] + Join(ts[1..])
  }

  /** `WordLen` is the one length that ends the leading run of non-space characters. */
  lemma {:induction false} WordLenIs(s: string, n: nat)
    requires n <= |s| && (forall j | 0 <= j < n :: !IsSpace(s[j])) && (n == |s| || IsSpace(s[n]))
    ensures WordLen(s) == n
  {
    if n > 0 {
      var u := s[1..];
      assert forall j | 0 <= j < n - 1 :: u[j] == s[j + 1];
      assert n - 1 == |u| || u[n - 1] == s[n];
      WordLenIs(u, n - 1);
    }
  }

  lemma WordLenOfWord(t: string, rest: string)
    requires IsWord(t) && (rest == [] || IsSpace(rest[0]))
    ensures WordLen(t + rest) == |t|
  {
    var s := t + rest;
    assert forall j | 0 <= j < |t| :: s[j] == t[j];
    assert |t| == |s| || s[|t|] == rest[0];
    WordLenIs(s, |t|);
  }

  /** Splitting words joined by spaces gives the words back. */
  lemma {:induction false} TokensOfJoin(ts: seq<string>)
    requires forall i | 0 <= i < |ts| :: IsWord(ts[i])
    ensures Tokens(Join(ts)) == ts
  {
    if ts == [] {
    } else if |ts| == 1 {
      var t := ts[0];
      WordLenOfWord(t, []);
      assert t + [] == t;
      assert t[|t|..] == [];
    } else {
      var t, rest := ts[0], Join(ts[1..]);
      var s := t + [' '] + rest;
      WordLenOfWord(t, [' '] + rest);
      assert s == t + ([' '] + rest);
      assert s[..|t|] == t;
      assert s[|t|..] == [' '] + rest;
      assert ([' '] + rest)[1..] == rest;
      TokensOfJoin(ts[1..]);
      assert ts == [t] + ts[1..];
    }
  }

  // ======== ParseArgs ========

  type Args = map<string, string>

  /** `std::string::find`: the first index of `c` in `t`, or none (`npos`). */
  function Find(t: string, c: char): (r: Option<nat>)
    ensures r.None? <==> c !in t
    ensures r.Some? ==> r.value < |t| && t[r.value] == c && c !in t[..r.value]
  {
    if t == [] then None
    else if t[0] == c then Some(0)
    else match Find(t[1..], c)
      case None => None
      case Some(i) =>
        assert t[..i + 1] == [t[0]] + t[1..][..i];
        Some(i + 1)
  }

  /** The key of a `key=value` token: the text before its first `=`; none without a `=`. */
  function KeyOf(token: string): Option<string> {
    match Find(token, '=')
    case None => None
    case Some(pos) => Some(token[..pos])
  }

  /** The value of a `key=value` token: everything after its first `=`. */
  function ValueOf(token: string): string
    requires '=' in token
  {
    var pos := Find(token, '=').value;
    token[pos + 1..]
  }

  /** The map `ParseArgs` builds from its tokens: each `key=value` token in turn overwrites its key. */
  function ArgsOf(ts: seq<string>): Args {
    if ts == [] then map[]
    else
      var out, t := ArgsOf(ts[..|ts| - 1]), ts[|ts| - 1];
      match KeyOf(t)
      case None => out
      case Some(k) => out[k := ValueOf(t)]
  }

  /** `ParseArgs`: a null argument list gives no options; otherwise the words are read in order. */
  method ParseArgs(args: Option<string>) returns (out: Args)
    ensures out == if args.None? then map[] else ArgsOf(Tokens(args.value))
  {
    out := map[];
    if args.None? {
      return;
    }
    var tokens := Tokens(args.value);
    var i := 0;
    while i < |tokens|
      invariant 0 <= i <= |tokens|
      invariant out == ArgsOf(tokens[..i])
    {
      var token := tokens[i];
      assert tokens[..i + 1][..i] == tokens[..i];
      var pos := Find(token, '=');
      if pos.Some? {
        out := out[token[..pos.value] := token[pos.value + 1..]];
      }
      i := i + 1;
    }
    assert tokens[..|tokens|] == tokens;
  }

  /** A key is set exactly when some token carries it before its first `=`. */
  lemma {:induction false} ArgsKeyIff(ts: seq<string>, k: string)
    ensures k in ArgsOf(ts) <==> exists i | 0 <= i < |ts| :: KeyOf(ts[i]) == Some(k)
  {
    if ts != [] {
      var init := ts[..|ts| - 1];
      ArgsKeyIff(init, k);
      if exists i | 0 <= i < |init| :: KeyOf(init[i]) == Some(k) {
        var i :| 0 <= i < |init| && KeyOf(init[i]) == Some(k);
        assert ts[i] == init[i];
      }
      if exists i | 0 <= i < |ts| :: KeyOf(ts[i]) == Some(k) {
        var i :| 0 <= i < |ts| && KeyOf(ts[i]) == Some(k);
        if i < |init| {
          assert init[i] == ts[i];
        }
      }
    }
  }

  /** A key's value comes from the last token that carries it: later duplicates overwrite earlier ones. */
  lemma {:induction false} ArgsLastWins(ts: seq<string>, i: nat, k: string)
    requires i < |ts| && KeyOf(ts[i]) == Some(k)
    requires forall j | i < j < |ts| :: KeyOf(ts[j]) != Some(k)
    ensures k in ArgsOf(ts) && ArgsOf(ts)[k] == ValueOf(ts[i])
  {
    var init := ts[..|ts| - 1];
    if i < |ts| - 1 {
      forall j | i < j < |init|
        ensures KeyOf(init[j]) != Some(k)
      {
        assert init[j] == ts[j];
      }
      ArgsLastWins(init, i, k);
    }
  }

  /** Words without `=` contribute nothing. */
  lemma ArgsIgnorePlainWord(ts: seq<string>, t: string)
    requires '=' !in t
    ensures ArgsOf(ts + [t]) == ArgsOf(ts)
  {
    assert (ts + [t])[..|ts + [t]| - 1] == ts;
  }

  /** The key of an option never holds a `=`; its value is the rest of the token after the key and the `=`. */
  lemma KeyValueSplit(token: string)
    requires '=' in token
    ensures KeyOf(token).Some? && '=' !in KeyOf(token).value
    ensures token == KeyOf(token).value + ['='] + ValueOf(token)
  {
    var pos := Find(token, '=').value;
    assert token == token[..pos] + [token[pos]] + token[pos + 1..];
  }

  // ======== the command line ========

  /** The number of whitespace characters `s` starts with. */
  function LeadingSpace(s: string): (n: nat)
    ensures n <= |s|
    ensures forall j | 0 <= j < n :: IsSpace(s[j])
    ensures n == |s| || !IsSpace(s[n])
  {
    if s != [] && IsSpace(s[0]) then 1 + LeadingSpace(s[1..]) else 0
  }

  /** What `std::getline` reads: everything up to, not including, the first newline. */
  function Line(s: string): string {
    match Find(s, '\n')
    case None => s
    case Some(p) => s[..p]
  }

  /**
   * `iss >> acctToken; std::getline(iss, rest);`: the first word (empty when there is none) and
   * the remainder of its line, starting right after the word.
   */
  function SplitFirst(s: string): (string, string) {
    var lead := LeadingSpace(s);
    var n := WordLen(s[lead..]);
    (s[lead..][..n], Line(s[lead..][n..]))
  }

  lemma TokensSkipSpace(s: string)
    ensures Tokens(s) == Tokens(s[LeadingSpace(s)..])
    decreases |s|
  {
    if s != [] && IsSpace(s[0]) {
      TokensSkipSpace(s[1..]);
      assert s[1..][LeadingSpace(s[1..])..] == s[LeadingSpace(s)..];
    }
  }

  /**
   * On a one-line argument string with at least one word, the first word is the account and the
   * options are exactly the remaining words.
   */
  lemma SplitFirstTokens(s: string)
    requires '\n' !in s && Tokens(s) != []
    ensures var (first, rest) := SplitFirst(s); Tokens(s) == [first] + Tokens(rest)
  {
    var lead := LeadingSpace(s);
    var u := s[lead..];
    TokensSkipSpace(s);
    assert u != [];
    var n := WordLen(u);
    assert '\n' !in u[n..] by {
      assert forall j | 0 <= j < |u[n..]| :: u[n..][j] == s[lead + n + j];
    }
  }

  // ======== decimal numbers ========

  predicate IsDigit(c: char) {
    '0' <= c <= '9'
  }

  function DigitValue(c: char): nat
    requires IsDigit(c)
  {
    (c as int - '0' as int) as nat
  }

  /** The length of the run of decimal digits `t` starts with. */
  function DigitsLen(t: string): (n: nat)
    ensures n <= |t|
    ensures forall j | 0 <= j < n :: IsDigit(t[j])
    ensures n == |t| || !IsDigit(t[n])
  {
    if t != [] && IsDigit(t[0]) then 1 + DigitsLen(t[1..]) else 0
  }

  /** The number a string of decimal digits denotes. */
  function DigitsValue(d: string): nat
    requires forall j | 0 <= j < |d| :: IsDigit(d[j])
  {
    if d == [] then 0 else DigitsValue(d[..|d| - 1]) * 10 + DigitValue(d[|d| - 1])
  }

  /**
   * `strtoul(t, nullptr, 10)` on a word: the value of its leading decimal digits, and 0 when it
   * does not start with a digit.
   */
  function ParseNumber(t: string): nat {
    var n := DigitsLen(t);
    DigitsValue(t[..n])
  }

  /** `std::to_string` of a non-negative number: its decimal digits without leading zeros. */
  function ShowNumber(x: nat): (d: string)
    ensures d != [] && forall j | 0 <= j < |d| :: IsDigit(d[j])
  {
    var c := ('0' as int + x % 10) as char;
    if x < 10 then [c] else ShowNumber(x / 10) + [c]
  }

  lemma {:induction false} ShowNumberValue(x: nat)
    ensures DigitsValue(ShowNumber(x)) == x
  {
    var d := ShowNumber(x);
    if x >= 10 {
      ShowNumberValue(x / 10);
      assert d[..|d| - 1] == ShowNumber(x / 10);
    }
  }

  /** Parsing what `std::to_string` prints gives the number back, so the id in a `WHERE` clause is the parsed one. */
  lemma ParseShowNumber(x: nat)
    ensures ParseNumber(ShowNumber(x)) == x
  {
    var d := ShowNumber(x);
    assert DigitsLen(d) == |d| by {
      DigitsLenAll(d);
    }
    assert d[..|d|] == d;
    ShowNumberValue(x);
  }

  lemma DigitsLenAll(d: string)
    requires forall j | 0 <= j < |d| :: IsDigit(d[j])
    ensures DigitsLen(d) == |d|
  {
    if d != [] {
      assert IsDigit(d[0]);
      DigitsLenAll(d[1..]);
    }
  }

  /** A word that does not start with a digit parses as 0. */
  lemma ParseNonNumber(t: string)
    requires t == [] || !IsDigit(t[0])
    ensures ParseNumber(t) == 0
  {
  }

  // ======== .reagentbank audit ========

  /** An option's parsed value, or `default` when the option is absent. */
  function NumberOr(kv: Args, key: string, default: nat): nat {
    if key in kv then ParseNumber(kv[key]) else default
  }

  /** `top`: 5 when absent or 0, at most 50. */
  function NormTop(kv: Args): (n: nat)
    ensures 1 <= n <= 50
    ensures "top" !in kv ==> n == 5
    ensures "top" in kv && 1 <= ParseNumber(kv["top"]) <= 50 ==> n == ParseNumber(kv["top"])
    ensures "top" in kv && ParseNumber(kv["top"]) == 0 ==> n == 5
    ensures "top" in kv && ParseNumber(kv["top"]) > 50 ==> n == 50
  {
    var n := NumberOr(kv, "top", 5);
    if n == 0 then 5 else if n > 50 then 50 else n
  }

  /** `page`: 1 when absent or 0. */
  function NormPage(kv: Args): (n: nat)
    ensures n >= 1
    ensures "page" !in kv ==> n == 1
    ensures "page" in kv && ParseNumber(kv["page"]) >= 1 ==> n == ParseNumber(kv["page"])
    ensures "page" in kv && ParseNumber(kv["page"]) == 0 ==> n == 1
  {
    var n := NumberOr(kv, "page", 1);
    if n == 0 then 1 else n
  }

  /** `pageSize`: 20 when absent or 0, at most 200. */
  function NormPageSize(kv: Args): (n: nat)
    ensures 1 <= n <= 200
    ensures "pageSize" !in kv ==> n == 20
    ensures "pageSize" in kv && 1 <= ParseNumber(kv["pageSize"]) <= 200 ==> n == ParseNumber(kv["pageSize"])
    ensures "pageSize" in kv && ParseNumber(kv["pageSize"]) == 0 ==> n == 20
    ensures "pageSize" in kv && ParseNumber(kv["pageSize"]) > 200 ==> n == 200
  {
    var n := NumberOr(kv, "pageSize", 20);
    if n == 0 then 20 else if n > 200 then 200 else n
  }

  /** `(page - 1) * pageSize` in `uint32`: the rows of the earlier pages, when that fits. */
  function Offset(page: nat, pageSize: nat): (o: nat)
    requires page >= 1
    ensures IsU32(o)
    ensures (page - 1) * pageSize < U32_LIMIT ==> o == (page - 1) * pageSize
  {
    Wrap32((page - 1) * pageSize)
  }

  /** The options of one audit summary. */
  datatype AuditQuery = AuditQuery(accountId: nat, guid: nat, top: nat, page: nat, pageSize: nat, offset: nat)

  /** `HandleAuditSummary`'s argument handling: none (the usage reply) on an empty argument string. */
  function ParseAudit(args: string): (r: Option<AuditQuery>)
    ensures r.None? <==> args == []
    ensures r.Some? ==> 1 <= r.value.top <= 50 && r.value.page >= 1 && 1 <= r.value.pageSize <= 200
    ensures r.Some? ==> r.value.offset == Offset(r.value.page, r.value.pageSize)
    ensures r.Some? ==> r.value.accountId == ParseNumber(SplitFirst(args).0)
    ensures r.Some? ==> var kv := ArgsOf(Tokens(SplitFirst(args).1));
      r.value.guid == NumberOr(kv, "guid", 0) && r.value.top == NormTop(kv)
      && r.value.page == NormPage(kv) && r.value.pageSize == NormPageSize(kv)
  {
    if args == [] then None
    else
      var (acct, rest) := SplitFirst(args);
      var kv := ArgsOf(Tokens(rest));
      var page := NormPage(kv);
      var pageSize := NormPageSize(kv);
      Some(AuditQuery(ParseNumber(acct), NumberOr(kv, "guid", 0), NormTop(kv), page, pageSize, Offset(page, pageSize)))
  }

  /** The audit's `WHERE account_id = a [AND guid = g]`. */
  function AuditFilter(q: AuditQuery): AuditRecord -> bool {
    (r: AuditRecord) => InScope(r, q.accountId, q.guid)
  }

  /** The guid option narrows the summary to one character exactly when it is non-zero. */
  lemma AuditFilterGuid(q: AuditQuery, r: AuditRecord)
    ensures AuditFilter(q)(r) <==> r.accountId == q.accountId && (q.guid != 0 ==> r.guid == q.guid)
  {
  }

  /** The summary's total: `COUNT(*)` of the rows in scope. */
  function AuditTotal(log: Log, q: AuditQuery): nat {
    CountWhere(log, AuditFilter(q))
  }

  /** A total that counts more rows than the account holds cannot happen: rows outside the scope are not counted. */
  lemma {:induction false} AuditTotalAtMost(log: Log, q: AuditQuery)
    ensures AuditTotal(log, q) <= |log|
    ensures AuditTotal(log, q) == |log| - |Remove(log, AuditFilter(q))|
  {
    CountIsRemoved(log, AuditFilter(q));
  }

  // ======== .reagentbank purge ========

  /** The options of one purge. */
  datatype PurgeQuery = PurgeQuery(accountId: nat, guid: nat, olderThan: nat)

  /** `HandlePurge`'s argument handling: none (the usage reply) on an empty argument string. */
  function ParsePurge(args: string): (r: Option<PurgeQuery>)
    ensures r.None? <==> args == []
    ensures r.Some? ==> var kv := ArgsOf(Tokens(SplitFirst(args).1));
      r.value.guid == NumberOr(kv, "guid", 0) && r.value.olderThan == NumberOr(kv, "olderThan", 0)
    ensures r.Some? ==> r.value.accountId == ParseNumber(SplitFirst(args).0)
  {
    if args == [] then None
    else
      var (acct, rest) := SplitFirst(args);
      var kv := ArgsOf(Tokens(rest));
      Some(PurgeQuery(ParseNumber(acct), NumberOr(kv, "guid", 0), NumberOr(kv, "olderThan", 0)))
  }

  /** `uint32 cutoff = olderThan ? (uint32)time(nullptr) - olderThan : 0`, as written. */
  function CutoffAsWritten(now: nat, olderThan: nat): (c: nat)
    ensures IsU32(c)
  {
    if olderThan != 0 then Wrap32(Wrap32(now) - olderThan) else 0
  }

  /** The purge's `WHERE`, as written: the scope, and `ts < cutoff` unless the cutoff is 0. */
  function DoomedAsWritten(q: PurgeQuery, now: nat): AuditRecord -> bool {
    var cutoff := CutoffAsWritten(now, q.olderThan);
    (r: AuditRecord) => InScope(r, q.accountId, q.guid) && (cutoff == 0 || r.ts < cutoff)
  }

  /**
   * An `olderThan` larger than the current time wraps the cutoff to a time in the future, and
   * the purge deletes a row written a second ago.
   */
  lemma PurgeCutoffWraps()
    ensures var q := PurgeQuery(1, 0, 2000);
      CutoffAsWritten(1000, 2000) == U32_LIMIT - 1000
      && DoomedAsWritten(q, 1000)(AuditRecord(999, 1, 7, Deposit, 2589, 5, 1))
  {
  }

  /** An `olderThan` equal to the current time gives cutoff 0, and the time filter disappears. */
  lemma PurgeCutoffVanishes()
    ensures CutoffAsWritten(1000, 1000) == 0
    ensures DoomedAsWritten(PurgeQuery(1, 0, 1000), 1000)(AuditRecord(1000, 1, 7, Deposit, 2589, 5, 1))
  {
  }

  /** The purge's `WHERE` as intended: the scope, and, when `olderThan` is given, rows more than `olderThan` seconds old. */
  function Doomed(q: PurgeQuery, now: nat): AuditRecord -> bool {
    (r: AuditRecord) => InScope(r, q.accountId, q.guid) && (q.olderThan == 0 || r.ts < now - q.olderThan)
  }

  /** The intended filter deletes a row exactly when it is in scope and (if `olderThan` is given) older than `olderThan`. */
  lemma DoomedIff(q: PurgeQuery, now: nat, r: AuditRecord)
    ensures Doomed(q, now)(r) <==> InScope(r, q.accountId, q.guid) && (q.olderThan != 0 ==> now - r.ts > q.olderThan)
  {
  }

  /** When the current time and the age both fit and the age is less than the time, the written filter is the intended one. */
  lemma DoomedAgrees(q: PurgeQuery, now: nat, r: AuditRecord)
    requires IsU32(now) && q.olderThan < now
    ensures DoomedAsWritten(q, now)(r) == Doomed(q, now)(r)
  {
  }

  /** The outcome of a purge: the reported count and the table after the `DELETE`. */
  datatype Purged = Purged(count: nat, kept: Log)

  /** `HandlePurge` on the table: count with the filter, then delete with the same filter. */
  function Purge(log: Log, q: PurgeQuery, now: nat): Purged {
    Purged(CountWhere(log, Doomed(q, now)), Remove(log, Doomed(q, now)))
  }

  /** The purge as written, with the wrapping cutoff. */
  function PurgeAsWritten(log: Log, q: PurgeQuery, now: nat): Purged {
    Purged(CountWhere(log, DoomedAsWritten(q, now)), Remove(log, DoomedAsWritten(q, now)))
  }

  /** The reported count is the number of rows the delete removes, and the rows kept are exactly the ones it spares. */
  lemma PurgeReportsRemoved(log: Log, q: PurgeQuery, now: nat, x: AuditRecord)
    ensures Purge(log, q, now).count + |Purge(log, q, now).kept| == |log|
    ensures x in Purge(log, q, now).kept <==> x in log && !(InScope(x, q.accountId, q.guid) && (q.olderThan == 0 || x.ts < now - q.olderThan))
  {
    CountIsRemoved(log, Doomed(q, now));
    RemoveExact(log, Doomed(q, now), x);
  }

  /** Without `olderThan`, a purge removes every row of the account (or of the character, with `guid`). */
  lemma PurgeAllOfScope(log: Log, q: PurgeQuery, now: nat, x: AuditRecord)
    requires q.olderThan == 0
    ensures x in Purge(log, q, now).kept <==> x in log && !InScope(x, q.accountId, q.guid)
  {
    RemoveExact(log, Doomed(q, now), x);
  }

  /** A purge never deletes a row of another account. */
  lemma PurgeKeepsOthers(log: Log, q: PurgeQuery, now: nat, x: AuditRecord)
    requires x in log && x.accountId != q.accountId
    ensures x in Purge(log, q, now).kept
  {
    RemoveExact(log, Doomed(q, now), x);
  }

  /** Rows written after an intended purge's cutoff survive it, unlike in the as-written purge of `PurgeCutoffWraps`. */
  lemma PurgeKeepsRecent(log: Log, q: PurgeQuery, now: nat, x: AuditRecord)
    requires x in log && q.olderThan != 0 && x.ts >= now - q.olderThan
    ensures x in Purge(log, q, now).kept
  {
    RemoveExact(log, Doomed(q, now), x);
  }

  /** The as-written purge deletes the row of `PurgeCutoffWraps`, which the intended purge keeps. */
  lemma PurgeAsWrittenLosesRecent()
    ensures var log := [AuditRecord(999, 1, 7, Deposit, 2589, 5, 1)];
      PurgeAsWritten(log, PurgeQuery(1, 0, 2000), 1000).kept == []
      && Purge(log, PurgeQuery(1, 0, 2000), 1000).kept == log
  {
    var log := [AuditRecord(999, 1, 7, Deposit, 2589, 5, 1)];
    assert log[..0] == [];
  }
}
