/**
  The hash-chained audit log (internal/storage/integrity/auditlog.go).

  The log file is a sequence of JSON lines; the timestamp of an entry is its RFC 3339 text, which
  is both what the file stores and what the hash covers.  SHA-256 of a text is a parameter, and so
  is what JSON makes of a text on its way through the file.
 */
module AuditLog {
  import opened Hashing
  import opened Strings
  import opened Options

  type TextSha = string -> Digest

  datatype Entry = Entry(sequence: nat, timestamp: string, action: string, subject: string, details: string,
                         prevHash: string, hash: string)

  const GENESIS: string := "genesis"

  // ---------------------------------------------------------------- texts

  function HexDigit(n: nat): char
    requires n < 16
  {
    "0123456789abcdef"[n]
  }

  lemma HexDigitInjective(a: nat, b: nat)
    requires a < 16 && b < 16 && HexDigit(a) == HexDigit(b)
    ensures a == b
  {}

  function Hex(d: Bytes): (s: string)
    ensures |s| == 2 * |d|
  {
    if d == [] then "" else [HexDigit(d[0] as int / 16), HexDigit(d[0] as int % 16)] + Hex(d[1..])
  }

  lemma {:induction false} HexInjective(c: Bytes, d: Bytes)
    requires Hex(c) == Hex(d)
    ensures c == d
    decreases |c|
  {
    if c != [] {
      assert |d| > 0;
      var s, t := Hex(c), Hex(d);
      assert s[2..] == Hex(c[1..]) && t[2..] == Hex(d[1..]);
      assert s[0] == t[0] && s[1] == t[1];
      HexDigitInjective(c[0] as int / 16, d[0] as int / 16);
      HexDigitInjective(c[0] as int % 16, d[0] as int % 16);
      HexInjective(c[1..], d[1..]);
      assert c == [c[0]] + c[1..] && d == [d[0]] + d[1..];
    }
  }

  lemma {:induction false} HexBarFree(d: Bytes)
    ensures '|' !in Hex(d)
    decreases |d|
  {
    if d != [] {
      HexBarFree(d[1..]);
    }
  }

  function Digit(n: nat): char
    requires n < 10
  {
    "0123456789"[n]
  }

  function Decimal(n: nat): (s: string)
    ensures |s| >= 1
  {
    if n < 10 then [Digit(n)] else Decimal(n / 10) + [Digit(n % 10)]
  }

  lemma {:induction false} DecimalShape(n: nat)
    ensures '|' !in Decimal(n) && Decimal(n)[|Decimal(n)| - 1] == Digit(n % 10)
    ensures (|Decimal(n)| == 1) == (n < 10)
    ensures n >= 10 ==> Decimal(n)[..|Decimal(n)| - 1] == Decimal(n / 10)
  {
    if n >= 10 {
      DecimalShape(n / 10);
    }
  }

  lemma DigitInjective(a: nat, b: nat)
    requires a < 10 && b < 10 && Digit(a) == Digit(b)
    ensures a == b
  {}

  lemma {:induction false} DecimalInjective(m: nat, n: nat)
    requires Decimal(m) == Decimal(n)
    ensures m == n
  {
    DecimalShape(m);
    DecimalShape(n);
    DigitInjective(m % 10, n % 10);
    if m >= 10 {
      DecimalInjective(m / 10, n / 10);
    }
  }

  // ---------------------------------------------------------------- what the hash covers

  function Payload(e: Entry): string {
    Decimal(e.sequence) + ("|" + (e.timestamp + ("|" + Body(e.action, e.subject, e.details, e.prevHash))))
  }

  function Body(action: string, subject: string, details: string, prevHash: string): string {
    action + ("|" + (subject + ("|" + (details + ("|" + prevHash)))))
  }

  function EntryHash(sha: TextSha, e: Entry): string {
    Hex(sha(Payload(e)))
  }

  function Bars(s: string): nat {
    if s == [] then 0 else (if s[0] == '|' then 1 else 0) + Bars(s[1..])
  }

  lemma {:induction false} BarsConcat(a: string, b: string)
    ensures Bars(a + b) == Bars(a) + Bars(b)
    decreases |a|
  {
    if a == [] {
      assert a + b == b;
    } else {
      assert (a + b)[1..] == a[1..] + b;
      BarsConcat(a[1..], b);
    }
  }

  lemma {:induction false} BarFreeIff(s: string)
    ensures '|' !in s <==> Bars(s) == 0
    decreases |s|
  {
    if s != [] {
      BarFreeIff(s[1..]);
    }
  }

  lemma {:induction false} BodyBars(a: string, s: string, d: string, p: string)
    ensures Bars(Body(a, s, d, p)) == Bars(a) + Bars(s) + Bars(d) + Bars(p) + 3
  {
    var t3 := d + ("|" + p);
    var t2 := s + ("|" + t3);
    BarsConcat(d, "|" + p);
    BarsConcat("|", p);
    BarsConcat(s, "|" + t3);
    BarsConcat("|", t3);
    BarsConcat(a, "|" + t2);
    BarsConcat("|", t2);
    assert Bars("|") == 1;
    hide Bars;
  }

  /** No field contains the separator. */
  ghost predicate BarFree(e: Entry) {
    '|' !in e.action && '|' !in e.subject && '|' !in e.details
  }

  /** Timestamps and hashes never contain the separator, whoever wrote the line. */
  ghost predicate Parsable(e: Entry) {
    '|' !in e.timestamp && '|' !in e.prevHash
  }

  ghost predicate SameFields(e: Entry, f: Entry) {
    e.(hash := f.hash) == f
  }

  lemma {:induction false} BodyInjective(a: string, s: string, d: string, p: string, a': string, s': string, d': string, p': string)
    requires Body(a, s, d, p) == Body(a', s', d', p')
    requires '|' !in a && '|' !in s && '|' !in d && '|' !in p && '|' !in p'
    ensures a == a' && s == s' && d == d' && p == p'
  {
    BodyBars(a, s, d, p);
    BodyBars(a', s', d', p');
    BarFreeIff(a); BarFreeIff(s); BarFreeIff(d); BarFreeIff(p); BarFreeIff(p');
    BarFreeIff(a'); BarFreeIff(s'); BarFreeIff(d');
    hide Bars;
    SplitAtFirst('|', a, s + ("|" + (d + ("|" + p))), a', s' + ("|" + (d' + ("|" + p'))));
    SplitAtFirst('|', s, d + ("|" + p), s', d' + ("|" + p'));
    SplitAtFirst('|', d, p, d', p');
  }

  lemma {:induction false} HeadsSplit(e: Entry, f: Entry)
    requires Parsable(e) && Parsable(f) && Payload(e) == Payload(f)
    ensures e.sequence == f.sequence && e.timestamp == f.timestamp
    ensures Body(e.action, e.subject, e.details, e.prevHash) == Body(f.action, f.subject, f.details, f.prevHash)
  {
    DecimalShape(e.sequence);
    DecimalShape(f.sequence);
    hide Decimal, Body;
    var x, y := Body(e.action, e.subject, e.details, e.prevHash), Body(f.action, f.subject, f.details, f.prevHash);
    SplitAtFirst('|', Decimal(e.sequence), e.timestamp + ("|" + x), Decimal(f.sequence), f.timestamp + ("|" + y));
    SplitAtFirst('|', e.timestamp, x, f.timestamp, y);
    DecimalInjective(e.sequence, f.sequence);
  }

  lemma {:induction false} PayloadInjective(e: Entry, f: Entry)
    requires Parsable(e) && Parsable(f) && BarFree(e) && Payload(e) == Payload(f)
    ensures SameFields(e, f)
  {
    HeadsSplit(e, f);
    BodyInjective(e.action, e.subject, e.details, e.prevHash, f.action, f.subject, f.details, f.prevHash);
  }

  /** The payload of an entry fits another entry as well. */
  ghost predicate Ambiguous(e: Entry) {
    exists f :: Parsable(f) && Payload(f) == Payload(e) && !SameFields(e, f)
  }

  lemma CutAtBar(s: string) returns (x: string, y: string)
    requires '|' in s
    ensures s == x + ("|" + y)
  {
    var i :| 0 <= i < |s| && s[i] == '|';
    x, y := s[..i], s[i + 1..];
  }

  lemma BodyShift(a: string, x: string, y: string, d: string, p: string)
    ensures Body(x + ("|" + y), a, d, p) == Body(x, y + ("|" + a), d, p)
    ensures Body(a, x + ("|" + y), d, p) == Body(a, x, y + ("|" + d), p)
    ensures Body(a, d, x + ("|" + y), p) == Body(a, d + ("|" + x), y, p)
  {
    assert Body(x + ("|" + y), a, d, p) == Body(x, y + ("|" + a), d, p);
    assert Body(a, x + ("|" + y), d, p) == Body(a, x, y + ("|" + d), p);
    assert Body(a, d, x + ("|" + y), p) == Body(a, d + ("|" + x), y, p);
  }

  /** With the separator in a field, moving a field boundary gives another entry with the same payload. */
  lemma {:induction false} BarAlternative(e: Entry) returns (f: Entry)
    requires !BarFree(e)
    ensures f == e.(action := f.action, subject := f.subject, details := f.details) && f != e
    ensures Payload(f) == Payload(e)
  {
    if '|' in e.action {
      var x, y := CutAtBar(e.action);
      BodyShift(e.subject, x, y, e.details, e.prevHash);
      f := e.(action := x, subject := y + ("|" + e.subject));
      assert |e.action| > |x|;
    } else if '|' in e.subject {
      var x, y := CutAtBar(e.subject);
      BodyShift(e.action, x, y, e.details, e.prevHash);
      f := e.(subject := x, details := y + ("|" + e.details));
      assert |e.subject| > |x|;
    } else {
      var x, y := CutAtBar(e.details);
      BodyShift(e.action, x, y, e.subject, e.prevHash);
      f := e.(subject := e.subject + ("|" + x), details := y);
      assert |e.details| > |y|;
    }
    hide Decimal, Body;
  }

  /** A payload identifies its entry exactly when no field contains the separator. */
  lemma {:induction false} AmbiguousIffBar(e: Entry)
    requires Parsable(e)
    ensures Ambiguous(e) <==> !BarFree(e)
  {
    if BarFree(e) {
      forall f | Parsable(f) && Payload(f) == Payload(e) ensures SameFields(e, f) {
        PayloadInjective(e, f);
      }
    } else {
      var f := BarAlternative(e);
      hide Payload;
      assert Parsable(f) && !SameFields(e, f);
    }
  }

  // ---------------------------------------------------------------- the chain

  function Tip(log: seq<Entry>): string {
    if log == [] then GENESIS else log[|log| - 1].hash
  }

  ghost predicate Links(sha: TextSha, tip: string, e: Entry) {
    e.prevHash == tip && e.hash == EntryHash(sha, e)
  }

  ghost predicate Chained(sha: TextSha, log: seq<Entry>) {
    log == [] ||
    var front, last := log[..|log| - 1], log[|log| - 1];
    Chained(sha, front) && Links(sha, Tip(front), last)
  }

  lemma {:induction false} ChainedSnoc(sha: TextSha, log: seq<Entry>, e: Entry)
    ensures Chained(sha, log + [e]) <==> Chained(sha, log) && Links(sha, Tip(log), e)
  {
    assert (log + [e])[..|log|] == log;
  }

  lemma {:induction false} ChainedPrefix(sha: TextSha, log: seq<Entry>, i: nat)
    requires Chained(sha, log) && i <= |log|
    ensures Chained(sha, log[..i])
    decreases |log|
  {
    hide Links;
    if i == |log| {
      assert log[..i] == log;
    } else {
      ChainedPrefix(sha, log[..|log| - 1], i);
      assert log[..|log| - 1][..i] == log[..i];
    }
  }

  datatype Line = Blank | Garbage | Record(entry: Entry)

  function Records(lines: seq<Line>): seq<Entry> {
    if lines == [] then []
    else if lines[0].Record? then [lines[0].entry] + Records(lines[1..])
    else Records(lines[1..])
  }

  lemma {:induction false} RecordsSnoc(lines: seq<Line>, line: Line)
    ensures Records(lines + [line]) == Records(lines) + if line.Record? then [line.entry] else []
    decreases |lines|
  {
    if lines == [] {
      assert (lines + [line])[1..] == [];
    } else {
      assert (lines + [line])[1..] == lines[1..] + [line];
      RecordsSnoc(lines[1..], line);
    }
  }

  /** The parse loop of Verify: blank lines are skipped, one corrupt line refuses the file. */
  method ParseAll(lines: seq<Line>) returns (ok: bool, entries: seq<Entry>)
    ensures ok <==> Garbage !in lines
    ensures ok ==> entries == Records(lines)
  {
    entries := [];
    assert lines[..0] == [];
    for i := 0 to |lines|
      invariant entries == Records(lines[..i]) && Garbage !in lines[..i]
    {
      assert lines[..i + 1] == lines[..i] + [lines[i]];
      RecordsSnoc(lines[..i], lines[i]);
      match lines[i] {
        case Blank =>
        case Garbage => return false, [];
        case Record(e) => entries := entries + [e];
      }
    }
    assert lines[..|lines|] == lines;
    ok := true;
  }

  method Verify(sha: TextSha, lines: seq<Line>) returns (ok: bool)
    ensures ok <==> Garbage !in lines && Chained(sha, Records(lines))
  {
    hide EntryHash, Records;
    var parsed, entries := ParseAll(lines);
    if !parsed {
      return false;
    }
    var prevHash := GENESIS;
    for i := 0 to |entries|
      invariant prevHash == Tip(entries[..i]) && Chained(sha, entries[..i])
    {
      var e := entries[i];
      assert entries[..i + 1] == entries[..i] + [e];
      ChainedSnoc(sha, entries[..i], e);
      if Chained(sha, entries) {
        ChainedPrefix(sha, entries, i + 1);
      }
      if e.prevHash != prevHash {
        return false;
      }
      var expected := EntryHash(sha, e);
      if e.hash != expected {
        return false;
      }
      prevHash := e.hash;
    }
    assert entries[..|entries|] == entries;
    return true;
  }

  // ---------------------------------------------------------------- the last hash commits to the log

  datatype TextCollision = TextCollision(first: string, second: string)

  predicate IsTextCollision(sha: TextSha, c: TextCollision) {
    c.first != c.second && sha(c.first) == sha(c.second)
  }

  ghost predicate TimesParse(log: seq<Entry>) {
    forall e :: e in log ==> '|' !in e.timestamp
  }

  /** The last place at which two logs with one tip hash differ. */
  function Divergence(a: seq<Entry>, b: seq<Entry>): TextCollision
    decreases |a|
  {
    if a == [] || b == [] then TextCollision("", "")
    else
      var x, y := a[|a| - 1], b[|b| - 1];
      if Payload(x) != Payload(y) then TextCollision(Payload(x), Payload(y))
      else Divergence(a[..|a| - 1], b[..|b| - 1])
  }

  lemma {:induction false} ChainedFront(sha: TextSha, log: seq<Entry>)
    requires Chained(sha, log) && log != []
    ensures Chained(sha, log[..|log| - 1]) && Links(sha, Tip(log[..|log| - 1]), log[|log| - 1])
  {
    hide *;
    ChainedSnoc(sha, log[..|log| - 1], log[|log| - 1]);
    assert log[..|log| - 1] + [log[|log| - 1]] == log;
  }

  lemma {:induction false} ChainedHashes(sha: TextSha, log: seq<Entry>)
    requires Chained(sha, log)
    ensures log != [] ==> |Tip(log)| == 64
    ensures '|' !in Tip(log)
  {
    if log != [] {
      ChainedFront(sha, log);
      HexBarFree(sha(Payload(log[|log| - 1])));
      hide Hex;
    }
  }

  lemma {:induction false} NoTipOfNothing(sha: TextSha, a: seq<Entry>, b: seq<Entry>)
    requires Chained(sha, a) && Chained(sha, b) && Tip(a) == Tip(b) && (a == [] || b == [])
    ensures a == b
  {
    ChainedHashes(sha, a);
    ChainedHashes(sha, b);
    hide Chained;
    assert |GENESIS| == 7;
  }

  /**
    Two logs that Verify accepts and that end in the same hash are the same log, entry by entry,
    if the fields of one of them are free of the separator; the other may come from anywhere.
   */
  lemma {:induction false} TipCommits(sha: TextSha, a: seq<Entry>, b: seq<Entry>)
    requires Chained(sha, a) && Chained(sha, b) && Tip(a) == Tip(b)
    requires TimesParse(a) && TimesParse(b) && forall e :: e in a ==> BarFree(e)
    ensures a == b || IsTextCollision(sha, Divergence(a, b))
    decreases |a|
  {
    hide Chained, Tip, Divergence, Payload, BarFree;
    if a == [] || b == [] {
      NoTipOfNothing(sha, a, b);
    } else {
      var n, m := |a| - 1, |b| - 1;
      var x, y := a[n], b[m];
      assert x in a && y in b;
      TipCommitsStep(sha, a, b, n, m);
      if Payload(x) == Payload(y) {
        ChainedFront(sha, a);
        ChainedFront(sha, b);
        TipCommits(sha, a[..n], b[..m]);
        assert a == a[..n] + [x] && b == b[..m] + [y];
      }
    }
  }

  lemma {:induction false} TipCommitsStep(sha: TextSha, a: seq<Entry>, b: seq<Entry>, n: nat, m: nat)
    requires Chained(sha, a) && Chained(sha, b) && Tip(a) == Tip(b) && |a| == n + 1 && |b| == m + 1
    requires BarFree(a[n]) && '|' !in a[n].timestamp && '|' !in b[m].timestamp
    ensures if Payload(a[n]) == Payload(b[m])
            then a[n] == b[m] && Tip(a[..n]) == Tip(b[..m]) && Divergence(a, b) == Divergence(a[..n], b[..m])
            else IsTextCollision(sha, Divergence(a, b))
  {
    ChainedFront(sha, a);
    ChainedFront(sha, b);
    hide EntryHash, Payload, Chained, BarFree;
    ChainedHashes(sha, a[..n]);
    ChainedHashes(sha, b[..m]);
    LastsAgree(sha, a[n], b[m]);
  }

  lemma {:induction false} LastsAgree(sha: TextSha, x: Entry, y: Entry)
    requires x.hash == y.hash == EntryHash(sha, x) == EntryHash(sha, y)
    requires Parsable(x) && Parsable(y) && BarFree(x)
    ensures if Payload(x) == Payload(y) then x == y else IsTextCollision(sha, TextCollision(Payload(x), Payload(y)))
  {
    HexInjective(sha(Payload(x)), sha(Payload(y)));
    hide Hex, Payload;
    if Payload(x) == Payload(y) {
      PayloadInjective(x, y);
    }
  }

  /** An entry with the same payload and hashes can take the place of another. */
  ghost predicate Interchangeable(e: Entry, f: Entry) {
    Payload(f) == Payload(e) && f.prevHash == e.prevHash && f.hash == e.hash
  }

  lemma {:induction false} ChainedReplace(sha: TextSha, log: seq<Entry>, i: nat, f: Entry)
    requires Chained(sha, log) && i < |log| && Interchangeable(log[i], f)
    ensures Chained(sha, log[i := f]) && Tip(log[i := f]) == Tip(log)
    ensures Divergence(log, log[i := f]) == TextCollision("", "")
    decreases |log|
  {
    hide *;
    var n := |log| - 1;
    ChainedFront(sha, log);
    if i < n {
      ChainedReplace(sha, log[..n], i, f);
      assert log[i := f] == log[..n][i := f] + [log[n]];
      ChainedSnoc(sha, log[..n][i := f], log[n]);
      ReplacedLast(sha, log, log[..n][i := f], log[n]);
    } else {
      NoDivergence(log[..n]);
      assert log[i := f] == log[..n] + [f];
      ChainedSnoc(sha, log[..n], f);
      ReplacedLast(sha, log, log[..n], f);
    }
  }

  lemma {:induction false} ReplacedLast(sha: TextSha, log: seq<Entry>, front: seq<Entry>, f: Entry)
    requires log != [] && (f == log[|log| - 1] || Interchangeable(log[|log| - 1], f))
    ensures Tip(front + [f]) == Tip(log)
    ensures Divergence(log, front + [f]) == Divergence(log[..|log| - 1], front)
    ensures forall tip :: Links(sha, tip, log[|log| - 1]) ==> Links(sha, tip, f)
  {
    hide Payload, Hex;
    assert (front + [f])[..|front|] == front;
  }

  lemma {:induction false} NoDivergence(log: seq<Entry>)
    ensures Divergence(log, log) == TextCollision("", "")
    decreases |log|
  {
    hide Payload;
    if log != [] {
      NoDivergence(log[..|log| - 1]);
    }
  }

  /** With the separator in a field of any entry, a different log passes for the same one, for every hash. */
  lemma {:induction false} BarForges(sha: TextSha, log: seq<Entry>, i: nat) returns (forged: seq<Entry>)
    requires Chained(sha, log) && i < |log| && !BarFree(log[i])
    ensures forged != log && Chained(sha, forged) && Tip(forged) == Tip(log)
    ensures |forged| == |log| && forall j :: 0 <= j < |log| ==> forged[j].timestamp == log[j].timestamp
    ensures Divergence(log, forged) == TextCollision("", "")
  {
    var f := BarAlternative(log[i]);
    hide Payload, Chained, Tip, Divergence, BarFree;
    forged := log[i := f];
    ChainedReplace(sha, log, i, f);
    assert forged[i] != log[i];
  }

  /** Every accepted log with this log's tip is this log, or a computed pair collides. */
  ghost predicate Committed(sha: TextSha, log: seq<Entry>) {
    forall other {:trigger Chained(sha, other)} ::
      Chained(sha, other) && Tip(other) == Tip(log) && TimesParse(other) ==>
        other == log || IsTextCollision(sha, Divergence(log, other))
  }

  /** The last hash of an accepted log commits to it exactly when no field contains the separator. */
  lemma {:induction false} CommittedIffBarFree(sha: TextSha, log: seq<Entry>)
    requires Chained(sha, log) && TimesParse(log)
    ensures Committed(sha, log) <==> forall e :: e in log ==> BarFree(e)
  {
    hide Chained, Tip, Divergence, BarFree;
    if forall e :: e in log ==> BarFree(e) {
      forall other | Chained(sha, other) && Tip(other) == Tip(log) && TimesParse(other)
        ensures other == log || IsTextCollision(sha, Divergence(log, other))
      {
        TipCommits(sha, log, other);
      }
    } else {
      var i :| 0 <= i < |log| && !BarFree(log[i]);
      var forged := BarForges(sha, log, i);
      forall e | e in forged ensures '|' !in e.timestamp {
        var j :| 0 <= j < |forged| && forged[j] == e;
        assert log[j] in log;
      }
      assert !IsTextCollision(sha, TextCollision("", ""));
    }
  }

  // ---------------------------------------------------------------- appending

  /** The file and the state kept in memory. */
  datatype State = State(file: seq<Entry>, sequence: nat, lastHash: string)

  datatype Fields = Fields(timestamp: string, action: string, subject: string, details: string)

  /** What JSON makes of a field: the text that decoding gives back. */
  type Json = string -> string

  /** Bytes that are not UTF-8 come back as longer replacement characters, anything else unchanged. */
  ghost predicate Lengthens(json: Json) {
    forall s {:trigger json(s)} :: json(s) == s || |json(s)| > |s|
  }

  function Encoded(json: Json, f: Fields): Fields {
    Fields(f.timestamp, json(f.action), json(f.subject), json(f.details))
  }

  /** The entry as it is read back; the hashes are hexadecimal and the timestamp is plain text. */
  function Stored(json: Json, e: Entry): Entry {
    e.(action := json(e.action), subject := json(e.subject), details := json(e.details))
  }

  function NextEntry(sha: TextSha, s: State, f: Fields): Entry {
    var e := Entry(s.sequence + 1, f.timestamp, f.action, f.subject, f.details, s.lastHash, "");
    e.(hash := EntryHash(sha, e))
  }

  /** The state advances before the write, so also when the write fails. */
  function Appended(sha: TextSha, json: Json, s: State, f: Fields, written: bool): State {
    var e := NextEntry(sha, s, f);
    State(if written then s.file + [Stored(json, e)] else s.file, e.sequence, e.hash)
  }

  /** Reopening recovers the state from the last entry of the file. */
  function Reopened(s: State): State {
    State(s.file, if s.file == [] then 0 else s.file[|s.file| - 1].sequence, Tip(s.file))
  }

  datatype Op = Append(fields: Fields, written: bool) | Reopen

  function Step(sha: TextSha, json: Json, s: State, op: Op): State {
    match op
    case Append(f, written) => Appended(sha, json, s, f, written)
    case Reopen => Reopened(s)
  }

  function Run(sha: TextSha, json: Json, ops: seq<Op>): State {
    if ops == [] then State([], 0, GENESIS) else Step(sha, json, Run(sha, json, ops[..|ops| - 1]), ops[|ops| - 1])
  }

  /** The last entry whose write failed, if nothing was written and nothing reopened since. */
  function Lost(sha: TextSha, json: Json, ops: seq<Op>): Option<Entry> {
    if ops == [] then None
    else
      var front, last := ops[..|ops| - 1], ops[|ops| - 1];
      if last.Append? && !last.written then Some(NextEntry(sha, Run(sha, json, front), last.fields)) else None
  }

  /** No entry is written on top of one whose write failed. */
  predicate Careful(ops: seq<Op>) {
    forall i :: 0 < i < |ops| && ops[i - 1].Append? && !ops[i - 1].written && ops[i].Append? ==> !ops[i].written
  }

  /** Every written entry is read back as it was submitted. */
  predicate Lossless(json: Json, ops: seq<Op>) {
    forall op :: op in ops && op.Append? && op.written ==> Encoded(json, op.fields) == op.fields
  }

  predicate Clean(json: Json, ops: seq<Op>) {
    Careful(ops) && Lossless(json, ops)
  }

  /** Entries are numbered upwards, and memory is never behind the file. */
  ghost predicate Numbered(s: State) {
    && (forall i, j :: 0 <= i < j < |s.file| ==> s.file[i].sequence < s.file[j].sequence)
    && (forall i :: 0 <= i < |s.file| ==> s.file[i].sequence <= s.sequence)
  }

  lemma {:induction false} RunNumbered(sha: TextSha, json: Json, ops: seq<Op>)
    ensures Numbered(Run(sha, json, ops))
    decreases |ops|
  {
    if ops != [] {
      RunNumbered(sha, json, ops[..|ops| - 1]);
      hide EntryHash;
    }
  }

  /** What memory holds after a run: the tip of the file, or the hash of the lost entry. */
  lemma {:induction false} RunMemory(sha: TextSha, json: Json, ops: seq<Op>)
    ensures var s, lost := Run(sha, json, ops), Lost(sha, json, ops);
            if lost.None? then s.lastHash == Tip(s.file)
            else
              && s.lastHash == lost.value.hash == EntryHash(sha, lost.value)
              && forall e :: e in s.file ==> e.sequence < lost.value.sequence
  {
    if ops != [] {
      RunNumbered(sha, json, ops[..|ops| - 1]);
      hide Hex, Decimal;
    }
  }

  lemma {:induction false} NextLinks(sha: TextSha, json: Json, s: State, f: Fields)
    ensures var e := NextEntry(sha, s, f);
            && e.prevHash == s.lastHash && e.hash == EntryHash(sha, e) && e.sequence == s.sequence + 1
            && FieldsOf(e) == f && FieldsOf(Stored(json, e)) == Encoded(json, f)
            && (Encoded(json, f) == f ==> Stored(json, e) == e)
            && Stored(json, e).prevHash == s.lastHash && Stored(json, e).hash == e.hash
  {
    hide Hex, Decimal;
  }

  lemma CarefulFront(ops: seq<Op>)
    requires ops != []
    ensures Careful(ops) ==> Careful(ops[..|ops| - 1])
    ensures Careful(ops[..|ops| - 1]) ==>
              (Careful(ops) <==> !(|ops| >= 2 && ops[|ops| - 2].Append? && !ops[|ops| - 2].written
                                   && ops[|ops| - 1].Append? && ops[|ops| - 1].written))
  {
    var n := |ops| - 1;
    assert forall i :: 0 <= i < n ==> ops[..n][i] == ops[i];
  }

  lemma CleanFront(json: Json, ops: seq<Op>)
    requires ops != []
    ensures Clean(json, ops) ==> Clean(json, ops[..|ops| - 1])
    ensures Clean(json, ops[..|ops| - 1]) ==>
              (Clean(json, ops) <==> !Risky(json, ops))
  {
    var front, last := ops[..|ops| - 1], ops[|ops| - 1];
    CarefulFront(ops);
    hide Careful;
    assert ops == front + [last];
  }

  /** The last operation writes an entry on top of a lost one, or one that JSON changes. */
  predicate Risky(json: Json, ops: seq<Op>)
    requires ops != []
  {
    var last := ops[|ops| - 1];
    last.Append? && last.written && (AfterLoss(ops) || Encoded(json, last.fields) != last.fields)
  }

  predicate AfterLoss(ops: seq<Op>) {
    |ops| >= 2 && ops[|ops| - 2].Append? && !ops[|ops| - 2].written
  }

  lemma {:induction false} LostIffAfterLoss(sha: TextSha, json: Json, ops: seq<Op>)
    requires ops != []
    ensures Lost(sha, json, ops[..|ops| - 1]).Some? <==> AfterLoss(ops)
  {
    hide NextEntry, Run;
  }

  /** Failed writes and reopens included, a clean run leaves a log that Verify accepts. */
  lemma {:induction false} CarefulRunVerifies(sha: TextSha, json: Json, ops: seq<Op>)
    requires Careful(ops) && Lossless(json, ops)
    ensures Chained(sha, Run(sha, json, ops).file)
    decreases |ops|
  {
    if ops != [] {
      var front, last := ops[..|ops| - 1], ops[|ops| - 1];
      CleanFront(json, ops);
      CarefulRunVerifies(sha, json, front);
      if last.Append? && last.written {
        var s := Run(sha, json, front);
        LostIffAfterLoss(sha, json, ops);
        RunMemory(sha, json, front);
        NextLinks(sha, json, s, last.fields);
        hide NextEntry, EntryHash, Chained, Stored, Lost, Careful, Lossless;
        ChainedSnoc(sha, s.file, NextEntry(sha, s, last.fields));
      }
    }
  }

  /** The collision behind a broken link that Verify does not see. */
  function UnseenBreak(sha: TextSha, json: Json, ops: seq<Op>): TextCollision
    decreases |ops|
  {
    if ops == [] then TextCollision("", "")
    else
      var front, last := ops[..|ops| - 1], ops[|ops| - 1];
      if !Clean(json, front) then UnseenBreak(sha, json, front)
      else if last.Append? then
        BreakPair(Run(sha, json, front).file, Lost(sha, json, front), NextEntry(sha, Run(sha, json, front), last.fields), json)
      else TextCollision("", "")
  }

  /** The lost entry and the last written one, or the new entry before and after its encoding. */
  function BreakPair(file: seq<Entry>, lost: Option<Entry>, e: Entry, json: Json): TextCollision {
    if lost.Some? && file != [] then TextCollision(Payload(lost.value), Payload(file[|file| - 1]))
    else TextCollision(Payload(e), Payload(Stored(json, e)))
  }

  lemma {:induction false} NumbersDiffer(x: Entry, y: Entry)
    requires Payload(x) == Payload(y)
    ensures x.sequence == y.sequence
  {
    DecimalShape(x.sequence);
    DecimalShape(y.sequence);
    hide Decimal, Body;
    SplitAtFirst('|', Decimal(x.sequence), x.timestamp + ("|" + Body(x.action, x.subject, x.details, x.prevHash)),
                 Decimal(y.sequence), y.timestamp + ("|" + Body(y.action, y.subject, y.details, y.prevHash)));
    DecimalInjective(x.sequence, y.sequence);
  }

  lemma {:induction false} LostIsNotTip(sha: TextSha, file: seq<Entry>, lost: Entry)
    requires Chained(sha, file) && lost.hash == EntryHash(sha, lost) == Tip(file)
    requires forall e :: e in file ==> e.sequence < lost.sequence
    ensures file != [] && IsTextCollision(sha, TextCollision(Payload(lost), Payload(file[|file| - 1])))
  {
    assert |lost.hash| == 64 && |GENESIS| == 7;
    var y := file[|file| - 1];
    ChainedFront(sha, file);
    HexInjective(sha(Payload(lost)), sha(Payload(y)));
    hide Hex, Payload, Chained;
    assert y in file;
    if Payload(lost) == Payload(y) {
      NumbersDiffer(lost, y);
    }
  }

  lemma {:induction false} LossShows(json: Json, e: Entry)
    requires Lengthens(json) && Stored(json, e) != e
    ensures Payload(Stored(json, e)) != Payload(e)
  {
    var f := Stored(json, e);
    BodyLength(e.action, e.subject, e.details, e.prevHash);
    BodyLength(f.action, f.subject, f.details, f.prevHash);
    hide Decimal, Body;
    assert |f.action| >= |e.action| && |f.subject| >= |e.subject| && |f.details| >= |e.details|;
    assert |Payload(f)| > |Payload(e)|;
  }

  lemma BodyLength(a: string, s: string, d: string, p: string)
    ensures |Body(a, s, d, p)| == |a| + |s| + |d| + |p| + 3
  {}

  lemma {:induction false} LossIsRefused(sha: TextSha, json: Json, tip: string, e: Entry)
    requires Lengthens(json) && e.hash == EntryHash(sha, e) && Stored(json, e) != e && Stored(json, e).hash == e.hash
    ensures !Links(sha, tip, Stored(json, e)) || IsTextCollision(sha, TextCollision(Payload(e), Payload(Stored(json, e))))
  {
    LossShows(json, e);
    var f := Stored(json, e);
    hide Payload, Hex, Stored, Lengthens;
    if Links(sha, tip, f) {
      HexInjective(sha(Payload(e)), sha(Payload(f)));
    }
  }

  /**
    The condition is exact: an entry written on top of a lost one, or one whose text does not
    survive the encoding, leaves a log that Verify refuses for ever after, short of a collision
    between two computed payloads.
   */
  lemma {:induction false} CarelessRunRefused(sha: TextSha, json: Json, ops: seq<Op>)
    requires Lengthens(json) && !(Careful(ops) && Lossless(json, ops))
    ensures !Chained(sha, Run(sha, json, ops).file) || IsTextCollision(sha, UnseenBreak(sha, json, ops))
    decreases |ops|
  {
    assert ops != [];
    var front := ops[..|ops| - 1];
    if Clean(json, front) {
      FirstBreak(sha, json, ops, front);
    } else {
      CarelessRunRefused(sha, json, front);
      hide *;
      StaysBroken(sha, json, ops, front);
    }
  }

  lemma {:induction false} StaysBroken(sha: TextSha, json: Json, ops: seq<Op>, front: seq<Op>)
    requires ops != [] && front == ops[..|ops| - 1] && !Clean(json, front)
    ensures !Chained(sha, Run(sha, json, front).file) ==> !Chained(sha, Run(sha, json, ops).file)
    ensures UnseenBreak(sha, json, ops) == UnseenBreak(sha, json, front)
  {
    var s, last := Run(sha, json, front), ops[|ops| - 1];
    hide Chained, EntryHash, Clean, Stored, BreakPair;
    if last.Append? && last.written {
      ChainedSnoc(sha, s.file, Stored(json, NextEntry(sha, s, last.fields)));
    }
  }

  lemma {:induction false} FirstBreak(sha: TextSha, json: Json, ops: seq<Op>, front: seq<Op>)
    requires Lengthens(json) && ops != [] && front == ops[..|ops| - 1] && Clean(json, front) && !Clean(json, ops)
    ensures !Chained(sha, Run(sha, json, ops).file) || IsTextCollision(sha, UnseenBreak(sha, json, ops))
  {
    var s, last, lost := Run(sha, json, front), ops[|ops| - 1], Lost(sha, json, front);
    CleanFront(json, ops);
    LostIffAfterLoss(sha, json, ops);
    RunMemory(sha, json, front);
    NextLinks(sha, json, s, last.fields);
    var e := NextEntry(sha, s, last.fields);
    assert Run(sha, json, ops).file == s.file + [Stored(json, e)];
    assert UnseenBreak(sha, json, ops) == BreakPair(s.file, lost, e, json);
    hide Chained, EntryHash, NextEntry, Payload, Stored, Lost, Clean, Run, UnseenBreak, Lengthens;
    ChainedSnoc(sha, s.file, Stored(json, e));
    if Chained(sha, s.file + [Stored(json, e)]) {
      if lost.Some? {
        LostIsNotTip(sha, s.file, lost.value);
      } else {
        LossIsRefused(sha, json, Tip(s.file), e);
      }
    }
  }

  // ---------------------------------------------------------------- what a successful run stores

  function Submitted(ops: seq<Op>): seq<Fields> {
    if ops == [] then []
    else
      var last := ops[|ops| - 1];
      Submitted(ops[..|ops| - 1]) + if last.Append? then [last.fields] else []
  }

  function FieldsOf(e: Entry): Fields {
    Fields(e.timestamp, e.action, e.subject, e.details)
  }

  /** The file holds what was submitted, as the encoding leaves it, in order, numbered from one. */
  ghost predicate Stores(json: Json, file: seq<Entry>, fields: seq<Fields>) {
    && |file| == |fields|
    && forall i :: 0 <= i < |file| ==> FieldsOf(file[i]) == Encoded(json, fields[i]) && file[i].sequence == i + 1
  }

  /** Any run of successful appends and reopens stores everything, and is accepted if nothing is lost in the encoding. */
  lemma {:induction false} SuccessfulRun(sha: TextSha, json: Json, ops: seq<Op>)
    requires forall op :: op in ops && op.Append? ==> op.written
    ensures Lossless(json, ops) ==> Chained(sha, Run(sha, json, ops).file)
    ensures Stores(json, Run(sha, json, ops).file, Submitted(ops)) && Run(sha, json, ops).sequence == |Run(sha, json, ops).file|
    decreases |ops|
  {
    assert Careful(ops) by { assert forall i :: 0 <= i < |ops| ==> ops[i] in ops; }
    if Lossless(json, ops) {
      CarefulRunVerifies(sha, json, ops);
    }
    hide Careful, Chained, EntryHash, Lossless;
    if ops != [] {
      var front, last := ops[..|ops| - 1], ops[|ops| - 1];
      assert last in ops;
      SuccessfulRun(sha, json, front);
      hide Stores, NextEntry, Encoded, Stored;
      if last.Append? {
        var s := Run(sha, json, front);
        NextLinks(sha, json, s, last.fields);
        StoredNumber(json, NextEntry(sha, s, last.fields));
        StoresMore(json, s.file, Submitted(front), Stored(json, NextEntry(sha, s, last.fields)), last.fields);
      } else {
        StoresLast(json, Run(sha, json, front).file, Submitted(front));
      }
    }
  }

  lemma StoredNumber(json: Json, e: Entry)
    ensures Stored(json, e).sequence == e.sequence
  {}

  lemma StoresMore(json: Json, file: seq<Entry>, fields: seq<Fields>, e: Entry, f: Fields)
    requires Stores(json, file, fields) && FieldsOf(e) == Encoded(json, f) && e.sequence == |file| + 1
    ensures Stores(json, file + [e], fields + [f])
  {}

  lemma StoresLast(json: Json, file: seq<Entry>, fields: seq<Fields>)
    requires Stores(json, file, fields)
    ensures file != [] ==> file[|file| - 1].sequence == |file|
    ensures fields + [] == fields
  {}

  // ---------------------------------------------------------------- the object

  class AuditLogFile {
    var lines: seq<Line>
    var sequence: nat
    var lastHash: string

    ghost function View(): State
      reads this
    {
      State(Records(lines), sequence, lastHash)
    }

    constructor (existing: seq<Line>)
      ensures lines == existing
      ensures View() == Reopened(State(Records(existing), 0, GENESIS))
    {
      lines, sequence, lastHash := existing, 0, GENESIS;
      new;
      RecoverState();
    }

    /** Scans the file; lines that do not parse are skipped. */
    method RecoverState()
      requires sequence == 0 && lastHash == GENESIS
      modifies this
      ensures lines == old(lines) && View() == Reopened(State(Records(lines), 0, GENESIS))
    {
      hide Records;
      assert lines[..0] == [];
      assert Records([]) == [] by { RecordsEmpty(); }
      for i := 0 to |lines|
        invariant lines == old(lines)
        invariant State(Records(lines[..i]), sequence, lastHash) == Reopened(State(Records(lines[..i]), 0, GENESIS))
      {
        assert lines[..i + 1] == lines[..i] + [lines[i]];
        RecordsSnoc(lines[..i], lines[i]);
        match lines[i] {
          case Blank =>
          case Garbage =>
          case Record(e) =>
            lastHash, sequence := e.hash, e.sequence;
        }
      }
      assert lines[..|lines|] == lines;
    }

    method AppendEntry(sha: TextSha, json: Json, f: Fields, written: bool)
      modifies this
      ensures View() == Appended(sha, json, old(View()), f, written)
      ensures Garbage in lines <==> Garbage in old(lines)
    {
      sequence := sequence + 1;
      var entry := Entry(sequence, f.timestamp, f.action, f.subject, f.details, lastHash, "");
      entry := entry.(hash := EntryHash(sha, entry));
      lastHash := entry.hash;
      if written {
        RecordsSnoc(lines, Record(Stored(json, entry)));
        lines := lines + [Record(Stored(json, entry))];
      }
    }
  }

  lemma RecordsEmpty()
    ensures Records([]) == []
  {}
}
