/** The evaluation of a dependency audit (src/dependencySecurity.ts). */
module DependencySecurity {
  import opened Wrappers
  import opened Segments
  import Text

  datatype Severity = Info | Low | Moderate | High | Critical

  /** A cause of a vulnerability: the name of another package, an advisory, or something that is skipped. */
  datatype Via =
    | Package(name: string)
    | Concrete(url: Option<string>, source: Option<string>, severity: Option<string>, title: Option<string>)
    | Skipped

  /** A package record; `via` is None when it is not an array. */
  datatype Vulnerability = Vulnerability(packageName: string, severity: Option<string>, via: Option<seq<Via>>)

  datatype Metadata = Metadata(info: int, low: int, moderate: int, high: int, critical: int, total: int)

  datatype Report = Report(vulnerabilities: seq<Vulnerability>, metadata: Metadata)

  datatype Advisory = Advisory(advisoryId: string, packageName: string, severity: Severity, title: string,
                               url: Option<string>)

  datatype Exception = Exception(
    advisoryId: string, severity: Severity, owner: string, reason: string, expiresAt: int, controls: seq<string>)

  function Rank(s: Severity): nat {
    match s
    case Info => 0
    case Low => 1
    case Moderate => 2
    case High => 3
    case Critical => 4
  }

  function Lower(s: string): string {
    seq(|s|, k requires 0 <= k < |s| => if 'A' <= s[k] <= 'Z' then (s[k] as int + 32) as char else s[k])
  }

  function NormalizeSeverity(value: Option<string>): Option<Severity> {
    var text := Lower(if value.Some? then value.value else "");
    if text == "info" then Some(Info)
    else if text == "low" then Some(Low)
    else if text == "moderate" then Some(Moderate)
    else if text == "high" then Some(High)
    else if text == "critical" then Some(Critical)
    else None
  }

  function SeverityText(s: Severity): string {
    match s
    case Info => "info"
    case Low => "low"
    case Moderate => "moderate"
    case High => "high"
    case Critical => "critical"
  }

  function LastPiece(pieces: seq<string>): Option<string> {
    if pieces == [] then None
    else if pieces[|pieces| - 1] != "" then Some(pieces[|pieces| - 1])
    else LastPiece(pieces[..|pieces| - 1])
  }

  /** The last piece of the URL, or a name made of the source or the package. */
  function AdvisoryId(packageName: string, c: Via): string
    requires c.Concrete?
  {
    var last := if c.url.Some? then LastPiece(Split(c.url.value, '/')) else None;
    if last.Some? then last.value else "npm-" + if c.source.Some? then c.source.value else packageName
  }

  function SeverityOf(v: Vulnerability, c: Via): Option<Severity>
    requires c.Concrete?
  {
    NormalizeSeverity(if c.severity.Some? then c.severity else v.severity)
  }

  /** The advisory made of a concrete cause. */
  function EntryOf(v: Vulnerability, c: Via): Advisory
    requires c.Concrete? && SeverityOf(v, c).Some?
  {
    Advisory(AdvisoryId(v.packageName, c), v.packageName, SeverityOf(v, c).value,
             if c.title.Some? then c.title.value else "Unnamed npm advisory", c.url)
  }

  function Key(a: Advisory): string {
    a.advisoryId + ":" + a.packageName
  }

  // ---------------------------------------------------------------- what a package contributes

  predicate CausesReadable(v: Vulnerability, via: seq<Via>) {
    forall c :: c in via && c.Concrete? ==> SeverityOf(v, c).Some?
  }

  /** The advisories of the concrete causes, in order. */
  function ConcreteEntries(v: Vulnerability, via: seq<Via>): seq<Advisory>
    requires CausesReadable(v, via)
  {
    if via == [] then [] else
      var last := via[|via| - 1];
      ConcreteEntries(v, via[..|via| - 1]) + if last.Concrete? then [EntryOf(v, last)] else []
  }

  predicate NamesPackages(via: seq<Via>) {
    exists c :: c in via && c.Package?
  }

  function MaximumSeverity(entries: seq<Advisory>): (r: Option<Severity>)
    ensures r.None? <==> entries == []
    ensures r.Some? ==>
              (forall e :: e in entries ==> Rank(e.severity) <= Rank(r.value))
              && exists e :: e in entries && e.severity == r.value
  {
    if entries == [] then None else
      var last := entries[|entries| - 1];
      assert last in entries && entries == entries[..|entries| - 1] + [last];
      var before := MaximumSeverity(entries[..|entries| - 1]);
      if before.Some? && Rank(before.value) >= Rank(last.severity) then before else Some(last.severity)
  }

  predicate IsSerious(s: Severity) {
    s == High || s == Critical
  }

  /** A record whose causes are all advisories has the severity of the worst of them. */
  predicate SeverityExplained(v: Vulnerability)
    requires v.via.Some? && CausesReadable(v, v.via.value) && NormalizeSeverity(v.severity).Some?
  {
    var severity, entries := NormalizeSeverity(v.severity).value, ConcreteEntries(v, v.via.value);
    entries != [] && !NamesPackages(v.via.value) && !IsSerious(severity) ==> MaximumSeverity(entries) == Some(severity)
  }

  predicate PackageReadable(v: Vulnerability) {
    && v.via.Some? && NormalizeSeverity(v.severity).Some? && CausesReadable(v, v.via.value)
    && SeverityExplained(v)
  }

  function PackageEntry(v: Vulnerability, severity: Severity): Advisory {
    Advisory("npm-package-" + v.packageName, v.packageName, severity,
             "Transitive " + SeverityText(severity) + " vulnerability reported for " + v.packageName, None)
  }

  /** Everything a package record sets in the map, in order. */
  function Entries(v: Vulnerability): seq<Advisory>
    requires PackageReadable(v)
  {
    var severity, concrete := NormalizeSeverity(v.severity).value, ConcreteEntries(v, v.via.value);
    var own := concrete == [] || NamesPackages(v.via.value) || IsSerious(severity);
    concrete + if own then [PackageEntry(v, severity)] else []
  }

  predicate AllReadable(vulnerabilities: seq<Vulnerability>) {
    forall v :: v in vulnerabilities ==> PackageReadable(v)
  }

  function AllEntries(vulnerabilities: seq<Vulnerability>): seq<Advisory>
    requires AllReadable(vulnerabilities)
  {
    if vulnerabilities == [] then [] else
      AllEntries(vulnerabilities[..|vulnerabilities| - 1]) + Entries(vulnerabilities[|vulnerabilities| - 1])
  }

  /** The number of package records with a severity. */
  function CountOf(vulnerabilities: seq<Vulnerability>, severity: Severity): nat {
    if vulnerabilities == [] then 0 else
      CountOf(vulnerabilities[..|vulnerabilities| - 1], severity)
      + if NormalizeSeverity(vulnerabilities[|vulnerabilities| - 1].severity) == Some(severity) then 1 else 0
  }

  /** The metadata is the exact severity histogram of the package records. */
  predicate MetadataExact(m: Metadata, vulnerabilities: seq<Vulnerability>) {
    && m.info == CountOf(vulnerabilities, Info) && m.low == CountOf(vulnerabilities, Low)
    && m.moderate == CountOf(vulnerabilities, Moderate) && m.high == CountOf(vulnerabilities, High)
    && m.critical == CountOf(vulnerabilities, Critical) && m.total == |vulnerabilities|
  }

  // ---------------------------------------------------------------- insertion-ordered maps

  /** The last entry of its key. */
  ghost predicate IsLastOfKey(entries: seq<Advisory>, i: int) {
    0 <= i < |entries| && forall j :: i < j < |entries| ==> Key(entries[j]) != Key(entries[i])
  }

  /** The values of a map that was set to each entry in turn: one per key, the last one. */
  ghost predicate IsMapOf(entries: seq<Advisory>, values: seq<Advisory>) {
    && Text.DistinctBy(values, Key)
    && (forall a :: a in values ==> exists i :: IsLastOfKey(entries, i) && entries[i] == a)
    && (forall i :: IsLastOfKey(entries, i) ==> entries[i] in values)
  }

  /** Setting a key: in place if it is there, else at the end. */
  function Put(values: seq<Advisory>, a: Advisory): seq<Advisory> {
    if values == [] then [a]
    else if Key(values[0]) == Key(a) then [a] + values[1..]
    else [values[0]] + Put(values[1..], a)
  }

  function PutAll(entries: seq<Advisory>): seq<Advisory> {
    if entries == [] then [] else Put(PutAll(entries[..|entries| - 1]), entries[|entries| - 1])
  }

  lemma {:induction false} PutReplaces(values: seq<Advisory>, a: Advisory)
    requires Text.DistinctBy(values, Key)
    ensures Text.DistinctBy(Put(values, a), Key)
    ensures forall x :: x in Put(values, a) <==> x == a || (x in values && Key(x) != Key(a))
  {
    hide Key;
    if values != [] {
      var rest := values[1..];
      assert values == [values[0]] + rest;
      PutReplaces(rest, a);
      var r := Put(values, a);
      if Key(values[0]) == Key(a) {
        forall x
          ensures x in rest <==> x in values && Key(x) != Key(a)
        {
          if x in rest {
            var k :| 0 <= k < |rest| && rest[k] == x;
            assert Key(values[0]) != Key(values[k + 1]);
          }
        }
      } else {
        var tail := Put(rest, a);
        forall j | 0 <= j < |tail|
          ensures Key(tail[j]) != Key(values[0])
        {
          assert tail[j] in tail;
          if tail[j] in rest {
            var k :| 0 <= k < |rest| && rest[k] == tail[j];
            assert Key(values[0]) != Key(values[k + 1]);
          }
        }
      }
    }
  }

  lemma LastOfMore(entries: seq<Advisory>, i: int)
    requires entries != []
    ensures var n := |entries| - 1;
            IsLastOfKey(entries, i) <==>
              i == n || (0 <= i < n && IsLastOfKey(entries[..n], i) && Key(entries[i]) != Key(entries[n]))
  {
    hide Key;
    var n := |entries| - 1;
    if 0 <= i < n && IsLastOfKey(entries[..n], i) {
      forall j | i < j < |entries|
        ensures Key(entries[j]) != Key(entries[i]) || j == n
      {
        assert j < n ==> entries[..n][j] == entries[j];
      }
    }
    if 0 <= i < n && IsLastOfKey(entries, i) {
      forall j | i < j < n
        ensures Key(entries[..n][j]) != Key(entries[..n][i])
      {
        assert entries[..n][j] == entries[j];
      }
    }
  }

  /** Setting every entry in turn leaves the last entry of each key. */
  lemma {:induction false} PutAllIsMap(entries: seq<Advisory>)
    ensures IsMapOf(entries, PutAll(entries))
  {
    hide Key, Put, IsLastOfKey;
    if entries != [] {
      var n := |entries| - 1;
      var before, values := PutAll(entries[..n]), PutAll(entries);
      PutAllIsMap(entries[..n]);
      PutReplaces(before, entries[n]);
      forall i
        ensures IsLastOfKey(entries, i) <==>
                  i == n || (0 <= i < n && IsLastOfKey(entries[..n], i) && Key(entries[i]) != Key(entries[n]))
        ensures IsLastOfKey(entries[..n], i) ==> 0 <= i < n
      {
        LastOfMore(entries, i);
        LastInRange(entries[..n], i);
      }
      forall a | a in values
        ensures exists i :: IsLastOfKey(entries, i) && entries[i] == a
      {
        if a == entries[n] {
          assert IsLastOfKey(entries, n);
        } else {
          var i :| IsLastOfKey(entries[..n], i) && entries[..n][i] == a;
          assert IsLastOfKey(entries, i) && entries[i] == a;
        }
      }
    } else {
      forall i
        ensures !IsLastOfKey(entries, i)
      {
        LastInRange(entries, i);
      }
    }
  }

  lemma LastInRange(entries: seq<Advisory>, i: int)
    ensures IsLastOfKey(entries, i) ==> 0 <= i < |entries|
  {}

  // ---------------------------------------------------------------- the extraction as written

  /** The loop over the causes of one record. */
  method ReadCauses(v: Vulnerability, via: seq<Via>, valuesIn: seq<Advisory>)
    returns (ok: bool, foundString: bool, concrete: seq<Advisory>, values: seq<Advisory>)
    ensures ok <==> CausesReadable(v, via)
    ensures ok ==>
              concrete == ConcreteEntries(v, via) && values == PutEach(valuesIn, concrete)
              && (foundString <==> NamesPackages(via))
  {
    hide SeverityOf, EntryOf, Put, PutEach;
    values, foundString, concrete := valuesIn, false, [];
    PutNothing(valuesIn);
    for k := 0 to |via|
      invariant CausesReadable(v, via[..k]) && concrete == ConcreteEntries(v, via[..k])
      invariant values == PutEach(valuesIn, concrete)
      invariant foundString <==> NamesPackages(via[..k])
    {
      var cause := via[k];
      assert via[..k + 1] == via[..k] + [cause] && via[..k + 1][..k] == via[..k] && cause in via
             && cause in via[..k + 1];
      if cause.Package? {
        foundString := true;
      } else if cause.Concrete? {
        if SeverityOf(v, cause).None? {
          return false, foundString, concrete, values;
        }
        var entry := EntryOf(v, cause);
        PutOneMore(valuesIn, concrete, entry);
        concrete := concrete + [entry];
        values := Put(values, entry);
      }
    }
    assert via[..|via|] == via;
    ok := true;
  }

  lemma PutNothing(values: seq<Advisory>)
    ensures PutEach(values, []) == values
  {}

  /** One package record; fails where the source throws. */
  method ReadPackage(v: Vulnerability, valuesIn: seq<Advisory>) returns (ok: bool, values: seq<Advisory>)
    ensures ok <==> PackageReadable(v)
    ensures ok ==> values == PutEach(valuesIn, Entries(v))
  {
    hide NormalizeSeverity, ConcreteEntries, PackageEntry, Put, PutEach, CausesReadable, NamesPackages, MaximumSeverity;
    values := valuesIn;
    var severity := NormalizeSeverity(v.severity);
    if severity.None? || v.via.None? {
      return false, values;
    }
    var foundString, concrete;
    ok, foundString, concrete, values := ReadCauses(v, v.via.value, valuesIn);
    if !ok {
      return;
    }
    var foundConcrete := concrete != [];
    if foundConcrete && !foundString && severity.value != High && severity.value != Critical
       && MaximumSeverity(concrete) != Some(severity.value) {
      return false, values;
    }
    assert concrete + [] == concrete;
    if !foundConcrete || foundString || severity.value == High || severity.value == Critical {
      PutOneMore(valuesIn, concrete, PackageEntry(v, severity.value));
      values := Put(values, PackageEntry(v, severity.value));
    }
    ok := true;
  }

  function PutEach(values: seq<Advisory>, entries: seq<Advisory>): seq<Advisory> {
    if entries == [] then values else Put(PutEach(values, entries[..|entries| - 1]), entries[|entries| - 1])
  }

  lemma PutOneMore(values: seq<Advisory>, entries: seq<Advisory>, a: Advisory)
    ensures PutEach(values, entries + [a]) == Put(PutEach(values, entries), a)
  {
    hide Put;
    assert (entries + [a])[..|entries|] == entries;
  }

  lemma {:induction false} PutAllParts(a: seq<Advisory>, b: seq<Advisory>)
    ensures PutAll(a + b) == PutEach(PutAll(a), b)
  {
    hide Put;
    if b == [] {
      assert a + b == a;
    } else {
      var n := |b| - 1;
      PutAllParts(a, b[..n]);
      assert (a + b)[..|a + b| - 1] == a + b[..n];
    }
  }

  method CountSeverities(vulnerabilities: seq<Vulnerability>) returns (counts: map<Severity, nat>)
    requires AllReadable(vulnerabilities)
    ensures forall s: Severity :: s in counts && counts[s] == CountOf(vulnerabilities, s)
  {
    hide NormalizeSeverity, PackageReadable;
    counts := map[Info := 0, Low := 0, Moderate := 0, High := 0, Critical := 0];
    forall s: Severity
      ensures s in counts && counts[s] == 0
    {
      assert s == Info || s == Low || s == Moderate || s == High || s == Critical;
    }
    for k := 0 to |vulnerabilities|
      invariant forall s: Severity :: s in counts && counts[s] == CountOf(vulnerabilities[..k], s)
    {
      assert vulnerabilities[..k + 1][..k] == vulnerabilities[..k] && vulnerabilities[k] in vulnerabilities;
      ReadableSeverity(vulnerabilities[k]);
      var severity := NormalizeSeverity(vulnerabilities[k].severity).value;
      counts := counts[severity := counts[severity] + 1];
    }
    assert vulnerabilities[..|vulnerabilities|] == vulnerabilities;
  }

  lemma ReadableSeverity(v: Vulnerability)
    requires PackageReadable(v)
    ensures NormalizeSeverity(v.severity).Some?
  {}

  lemma {:induction false} CountsAddUp(vulnerabilities: seq<Vulnerability>)
    requires AllReadable(vulnerabilities)
    ensures CountOf(vulnerabilities, Info) + CountOf(vulnerabilities, Low) + CountOf(vulnerabilities, Moderate)
            + CountOf(vulnerabilities, High) + CountOf(vulnerabilities, Critical) == |vulnerabilities|
  {
    hide NormalizeSeverity, PackageReadable;
    if vulnerabilities != [] {
      var n := |vulnerabilities| - 1;
      assert vulnerabilities[n] in vulnerabilities;
      ReadableSeverity(vulnerabilities[n]);
      CountsAddUp(vulnerabilities[..n]);
      var severity := NormalizeSeverity(vulnerabilities[n].severity).value;
      assert severity == Info || severity == Low || severity == Moderate || severity == High || severity == Critical;
      forall s: Severity
        ensures CountOf(vulnerabilities, s) == CountOf(vulnerabilities[..n], s) + if s == severity then 1 else 0
      {
      }
    }
  }

  /** The loop over the package records. */
  method ReadPackages(vulnerabilities: seq<Vulnerability>) returns (ok: bool, advisories: seq<Advisory>)
    ensures ok <==> AllReadable(vulnerabilities)
    ensures ok ==> advisories == PutAll(AllEntries(vulnerabilities))
  {
    hide PackageReadable, Put, PutAll, PutEach, Entries;
    advisories := [];
    PutAllOfNothing();
    for k := 0 to |vulnerabilities|
      invariant AllReadable(vulnerabilities[..k]) && advisories == PutAll(AllEntries(vulnerabilities[..k]))
    {
      var v := vulnerabilities[k];
      assert vulnerabilities[..k + 1] == vulnerabilities[..k] + [v]
             && vulnerabilities[..k + 1][..k] == vulnerabilities[..k];
      assert v in vulnerabilities;
      var read, values := ReadPackage(v, advisories);
      if !read {
        return false, advisories;
      }
      PutAllParts(AllEntries(vulnerabilities[..k]), Entries(v));
      advisories := values;
    }
    assert vulnerabilities[..|vulnerabilities|] == vulnerabilities;
    ok := true;
  }

  lemma PutAllOfNothing()
    ensures PutAll([]) == []
  {}

  /** The extraction; None where the source throws, which is exactly on an unreadable record or wrong metadata. */
  method ExtractAdvisories(report: Report) returns (result: Option<seq<Advisory>>)
    ensures result.Some? <==>
              AllReadable(report.vulnerabilities) && MetadataExact(report.metadata, report.vulnerabilities)
    ensures result.Some? ==> result.value == PutAll(AllEntries(report.vulnerabilities))
  {
    hide AllReadable, AllEntries, PutAll, CountOf;
    var ok, advisories := ReadPackages(report.vulnerabilities);
    if !ok {
      return None;
    }
    var counts := CountSeverities(report.vulnerabilities);
    CountsAddUp(report.vulnerabilities);
    var m := report.metadata;
    if m.info != counts[Info] || m.low != counts[Low] || m.moderate != counts[Moderate] || m.high != counts[High]
       || m.critical != counts[Critical] {
      return None;
    }
    if m.total != counts[Info] + counts[Low] + counts[Moderate] + counts[High] + counts[Critical] {
      return None;
    }
    result := Some(advisories);
  }

  // ---------------------------------------------------------------- the evaluation

  datatype Failure =
    | ExceptionExpired(advisoryId: string, expiresAt: int)
    | ExceptionIncomplete(advisoryId: string)
    | SeriousAdvisory(severity: Severity, advisoryId: string, packageName: string, title: string)
    | NotCovered(advisoryId: string)
    | OtherSeverity(advisoryId: string, declared: Severity)

  datatype Evaluation = Evaluation(
    advisories: seq<Advisory>, accepted: seq<Advisory>, failures: seq<Failure>, warnings: seq<string>)

  /** What `trim` removes: white space and line terminators, and the byte order mark. */
  predicate IsBlankCharacter(c: char) {
    || c in "\t\n\U{b}\U{c}\r \U{a0}\U{1680}\U{2028}\U{2029}\U{202f}\U{205f}\U{3000}\U{feff}"
    || '\U{2000}' <= c <= '\U{200a}'
  }

  predicate IsBlank(s: string) {
    forall k :: 0 <= k < |s| ==> IsBlankCharacter(s[k])
  }

  predicate IsIncomplete(x: Exception) {
    IsBlank(x.owner) || IsBlank(x.reason) || x.controls == []
  }

  function ExceptionId(x: Exception): string {
    x.advisoryId
  }

  ghost predicate ExceptionsValid(exceptions: seq<Exception>) {
    && (forall x :: x in exceptions ==>
          && (x.severity == Low || x.severity == Moderate) && !IsBlank(x.advisoryId)
          && forall c :: c in x.controls ==> !IsBlank(c))
    && Text.DistinctBy(exceptions, ExceptionId)
  }

  predicate IsLive(x: Exception, now: int) {
    x.expiresAt > now
  }

  /** A moderate advisory with a reviewed exception of that severity that has not expired. */
  predicate IsAcceptable(a: Advisory, exceptions: seq<Exception>, now: int) {
    a.severity == Moderate
    && exists x :: x in exceptions && x.advisoryId == a.advisoryId && x.severity == Moderate && IsLive(x, now)
  }

  function AcceptedOf(advisories: seq<Advisory>, exceptions: seq<Exception>, now: int): seq<Advisory> {
    if advisories == [] then [] else
      var last := advisories[|advisories| - 1];
      AcceptedOf(advisories[..|advisories| - 1], exceptions, now)
        + if IsAcceptable(last, exceptions, now) then [last] else []
  }

  /** Which failures an exception gives. */
  predicate FailsException(f: Failure, x: Exception, now: int) {
    || (f == ExceptionExpired(x.advisoryId, x.expiresAt) && !IsLive(x, now))
    || (f == ExceptionIncomplete(x.advisoryId) && IsIncomplete(x))
  }

  /** Which failures an advisory gives. */
  predicate FailsAdvisory(f: Failure, a: Advisory, exceptions: seq<Exception>) {
    || (f == SeriousAdvisory(a.severity, a.advisoryId, a.packageName, a.title) && IsSerious(a.severity))
    || (f == NotCovered(a.advisoryId) && a.severity == Moderate
        && !exists x :: x in exceptions && x.advisoryId == a.advisoryId)
    || (a.severity == Moderate && DeclaresOther(f, a, exceptions))
  }

  predicate DeclaresOther(f: Failure, a: Advisory, exceptions: seq<Exception>) {
    exists x ::
      x in exceptions && x.advisoryId == a.advisoryId && x.severity != Moderate
      && f == OtherSeverity(x.advisoryId, x.severity)
  }

  predicate Fails(f: Failure, exceptions: seq<Exception>, advisories: seq<Advisory>, now: int) {
    || (exists x :: x in exceptions && FailsException(f, x, now))
    || SomeAdvisoryFails(f, advisories, exceptions)
  }

  function StaleIds(exceptions: seq<Exception>, advisories: seq<Advisory>): seq<string> {
    if exceptions == [] then [] else
      var last := exceptions[|exceptions| - 1];
      StaleIds(exceptions[..|exceptions| - 1], advisories)
      + if exists a :: a in advisories && a.advisoryId == last.advisoryId then [] else [last.advisoryId]
  }

  function Unique(failures: seq<Failure>): (r: seq<Failure>)
    ensures Distinct(r) && forall f :: f in r <==> f in failures
  {
    if failures == [] then [] else
      var last := failures[|failures| - 1];
      assert failures == failures[..|failures| - 1] + [last];
      var before := Unique(failures[..|failures| - 1]);
      if last in before then before else before + [last]
  }

  function ExceptionIds(exceptions: seq<Exception>): seq<string> {
    seq(|exceptions|, k requires 0 <= k < |exceptions| => exceptions[k].advisoryId)
  }

  method ParseExceptions(exceptions: seq<Exception>) returns (ok: bool)
    ensures ok <==> ExceptionsValid(exceptions)
  {
    hide IsBlank;
    if exists x :: x in exceptions && x.severity != Low && x.severity != Moderate {
      return false;
    }
    if exists x :: x in exceptions && (IsBlank(x.advisoryId) || exists c :: c in x.controls && IsBlank(c)) {
      return false;
    }
    ok := AreUnique(ExceptionIds(exceptions));
    forall i, j | 0 <= i < j < |exceptions|
      ensures ExceptionId(exceptions[i]) == ExceptionIds(exceptions)[i]
              && ExceptionId(exceptions[j]) == ExceptionIds(exceptions)[j]
    {
    }
  }

  method CheckExceptions(exceptions: seq<Exception>, now: int) returns (failures: seq<Failure>)
    ensures forall f :: f in failures <==> exists x :: x in exceptions && FailsException(f, x, now)
  {
    hide IsIncomplete;
    failures := [];
    for k := 0 to |exceptions|
      invariant forall f :: f in failures <==> exists x :: x in exceptions[..k] && FailsException(f, x, now)
    {
      var x := exceptions[k];
      assert exceptions[..k + 1] == exceptions[..k] + [x];
      assert forall f :: (exists y :: y in exceptions[..k + 1] && FailsException(f, y, now)) <==>
                         (exists y :: y in exceptions[..k] && FailsException(f, y, now)) || FailsException(f, x, now);
      if x.expiresAt <= now {
        failures := failures + [ExceptionExpired(x.advisoryId, x.expiresAt)];
      }
      if IsIncomplete(x) {
        failures := failures + [ExceptionIncomplete(x.advisoryId)];
      }
    }
    assert exceptions[..|exceptions|] == exceptions;
  }

  /** What one advisory adds: a failure, an acceptance, or nothing. */
  method CheckAdvisory(a: Advisory, exceptions: seq<Exception>, now: int)
    returns (failure: Option<Failure>, accept: bool)
    requires Text.DistinctBy(exceptions, ExceptionId)
    ensures forall f :: failure == Some(f) <==> FailsAdvisory(f, a, exceptions)
    ensures accept <==> IsAcceptable(a, exceptions, now)
  {
    failure, accept := None, false;
    if IsSerious(a.severity) {
      return Some(SeriousAdvisory(a.severity, a.advisoryId, a.packageName, a.title)), false;
    }
    if a.severity == Moderate {
      if !exists x :: x in exceptions && x.advisoryId == a.advisoryId {
        return Some(NotCovered(a.advisoryId)), false;
      }
      var x := FindException(exceptions, a.advisoryId);
      OnlyException(exceptions, x);
      if x.severity != Moderate {
        failure := Some(OtherSeverity(x.advisoryId, x.severity));
      } else if x.expiresAt > now {
        accept := true;
      }
    }
  }

  function FindException(exceptions: seq<Exception>, id: string): (x: Exception)
    requires exists y :: y in exceptions && y.advisoryId == id
    ensures x in exceptions && x.advisoryId == id
  {
    if exceptions[0].advisoryId == id then exceptions[0] else FindException(exceptions[1..], id)
  }

  lemma OnlyException(exceptions: seq<Exception>, x: Exception)
    requires Text.DistinctBy(exceptions, ExceptionId) && x in exceptions
    ensures forall y :: y in exceptions && y.advisoryId == x.advisoryId ==> y == x
  {
    forall y | y in exceptions && y.advisoryId == x.advisoryId
      ensures y == x
    {
      var i :| 0 <= i < |exceptions| && exceptions[i] == x;
      var j :| 0 <= j < |exceptions| && exceptions[j] == y;
      assert ExceptionId(exceptions[i]) == ExceptionId(exceptions[j]);
    }
  }

  predicate SomeAdvisoryFails(f: Failure, advisories: seq<Advisory>, exceptions: seq<Exception>) {
    exists a :: a in advisories && FailsAdvisory(f, a, exceptions)
  }

  lemma NoAdvisoryFails(exceptions: seq<Exception>)
    ensures forall f :: !SomeAdvisoryFails(f, [], exceptions)
  {}

  lemma OneMoreFails(advisories: seq<Advisory>, a: Advisory, exceptions: seq<Exception>)
    ensures forall f :: SomeAdvisoryFails(f, advisories + [a], exceptions) <==>
                        SomeAdvisoryFails(f, advisories, exceptions) || FailsAdvisory(f, a, exceptions)
  {
    hide FailsAdvisory;
    assert a in advisories + [a] && forall b :: b in advisories ==> b in advisories + [a];
  }

  method CheckAdvisories(advisories: seq<Advisory>, exceptions: seq<Exception>, now: int)
    returns (failures: seq<Failure>, accepted: seq<Advisory>)
    requires Text.DistinctBy(exceptions, ExceptionId)
    ensures forall f :: f in failures <==> SomeAdvisoryFails(f, advisories, exceptions)
    ensures accepted == AcceptedOf(advisories, exceptions, now)
  {
    hide SomeAdvisoryFails, FailsAdvisory, IsAcceptable;
    failures, accepted := [], [];
    NoAdvisoryFails(exceptions);
    for k := 0 to |advisories|
      invariant forall f :: f in failures <==> SomeAdvisoryFails(f, advisories[..k], exceptions)
      invariant accepted == AcceptedOf(advisories[..k], exceptions, now)
    {
      var a := advisories[k];
      assert advisories[..k + 1] == advisories[..k] + [a] && advisories[..k + 1][..k] == advisories[..k];
      OneMoreFails(advisories[..k], a, exceptions);
      var failure, accept := CheckAdvisory(a, exceptions, now);
      if failure.Some? {
        failures := failures + [failure.value];
      }
      if accept {
        accepted := accepted + [a];
      }
    }
    assert advisories[..|advisories|] == advisories;
  }

  method ListStale(exceptions: seq<Exception>, advisories: seq<Advisory>) returns (warnings: seq<string>)
    ensures warnings == StaleIds(exceptions, advisories)
  {
    var ids := set a | a in advisories :: a.advisoryId;
    warnings := [];
    for k := 0 to |exceptions|
      invariant warnings == StaleIds(exceptions[..k], advisories)
    {
      assert exceptions[..k + 1][..k] == exceptions[..k];
      if exceptions[k].advisoryId !in ids {
        warnings := warnings + [exceptions[k].advisoryId];
      }
    }
    assert exceptions[..|exceptions|] == exceptions;
  }

  /** The evaluation of a report; None where the source throws. */
  method EvaluateDependencyAudit(report: Report, exceptions: seq<Exception>, now: int)
    returns (result: Option<Evaluation>)
    ensures result.Some? <==> && ExceptionsValid(exceptions) && AllReadable(report.vulnerabilities)
                              && MetadataExact(report.metadata, report.vulnerabilities)
    ensures result.Some? ==>
              var e := result.value;
              && e.advisories == PutAll(AllEntries(report.vulnerabilities))
              && e.accepted == AcceptedOf(e.advisories, exceptions, now)
              && Distinct(e.failures) && (forall f :: f in e.failures <==> Fails(f, exceptions, e.advisories, now))
              && e.warnings == StaleIds(exceptions, e.advisories)
  {
    hide FailsAdvisory, FailsException, PackageReadable, MetadataExact, Put, Entries, IsAcceptable, Distinct;
    var parsed := ParseExceptions(exceptions);
    if !parsed {
      return None;
    }
    var advisories := ExtractAdvisories(report);
    if advisories.None? {
      return None;
    }
    var ofExceptions := CheckExceptions(exceptions, now);
    var ofAdvisories, accepted := CheckAdvisories(advisories.value, exceptions, now);
    var warnings := ListStale(exceptions, advisories.value);
    result := Some(Evaluation(advisories.value, accepted, Unique(ofExceptions + ofAdvisories), warnings));
  }

  // ---------------------------------------------------------------- what an audit without failures means

  predicate HasPackage(vulnerabilities: seq<Vulnerability>, name: string) {
    exists v :: v in vulnerabilities && v.packageName == name
  }

  function NameOf(v: Vulnerability): string {
    v.packageName
  }

  predicate ColonFree(vulnerabilities: seq<Vulnerability>) {
    forall v :: v in vulnerabilities ==> ':' !in v.packageName
  }

  /** A key tells the package apart when package names have no colon. */
  lemma KeyNamesPackage(a: Advisory, b: Advisory)
    requires ':' !in a.packageName && ':' !in b.packageName && Key(a) == Key(b)
    ensures a.advisoryId == b.advisoryId && a.packageName == b.packageName
  {
    var key := Key(a);
    var i, j := |a.advisoryId|, |b.advisoryId|;
    assert key[i] == ':' && key[j] == ':';
    NoLaterColon(key, a.advisoryId, a.packageName, j);
    NoLaterColon(key, b.advisoryId, b.packageName, i);
    assert key[..i] == a.advisoryId && key[..j] == b.advisoryId;
    assert key[i + 1..] == a.packageName && key[j + 1..] == b.packageName;
  }

  lemma NoLaterColon(key: string, id: string, name: string, j: nat)
    requires key == id + ":" + name && ':' !in name && j < |key| && key[j] == ':'
    ensures j <= |id|
  {
    forall k | |id| < k < |key|
      ensures key[k] != ':'
    {
      assert key[k] == name[k - |id| - 1];
    }
  }

  lemma {:induction false} EntryNames(v: Vulnerability, via: seq<Via>)
    requires CausesReadable(v, via)
    ensures forall e :: e in ConcreteEntries(v, via) ==> e.packageName == v.packageName
  {
    if via != [] {
      EntryNames(v, via[..|via| - 1]);
    }
  }

  lemma EntriesNamePackage(v: Vulnerability)
    requires PackageReadable(v)
    ensures forall e :: e in Entries(v) ==> e.packageName == v.packageName
  {
    hide ConcreteEntries, SeverityExplained;
    EntryNames(v, v.via.value);
  }

  lemma {:induction false} PutAllDistinct(entries: seq<Advisory>)
    ensures Text.DistinctBy(PutAll(entries), Key)
  {
    PutAllIsMap(entries);
  }

  /** Entries of other packages leave the values of a package alone. */
  lemma {:induction false} OtherEntriesKeep(values: seq<Advisory>, entries: seq<Advisory>, x: Advisory)
    requires Text.DistinctBy(values, Key) && ':' !in x.packageName
    requires forall e :: e in entries ==> e.packageName != x.packageName && ':' !in e.packageName
    ensures Text.DistinctBy(PutEach(values, entries), Key)
    ensures x in PutEach(values, entries) <==> x in values
  {
    hide Put, Text.DistinctBy;
    if entries != [] {
      var n := |entries| - 1;
      OtherEntriesKeep(values, entries[..n], x);
      PutReplaces(PutEach(values, entries[..n]), entries[n]);
      assert entries[n] in entries;
      if Key(x) == Key(entries[n]) {
        KeyNamesPackage(x, entries[n]);
      }
    }
  }

  /** Without values of the package, setting its entries makes the map of those entries. */
  lemma {:induction false} OwnEntriesOnly(values: seq<Advisory>, entries: seq<Advisory>, x: Advisory)
    requires Text.DistinctBy(values, Key) && ':' !in x.packageName
    requires forall y :: y in values ==> y.packageName != x.packageName
    ensures Text.DistinctBy(PutEach(values, entries), Key)
    ensures x in PutEach(values, entries) <==> x in PutAll(entries)
  {
    hide Put, Text.DistinctBy, Key;
    if entries != [] {
      var n := |entries| - 1;
      OwnEntriesOnly(values, entries[..n], x);
      PutAllDistinct(entries[..n]);
      PutReplaces(PutEach(values, entries[..n]), entries[n]);
      PutReplaces(PutAll(entries[..n]), entries[n]);
    }
  }

  lemma NamesInMap(vulnerabilities: seq<Vulnerability>, x: Advisory)
    requires AllReadable(vulnerabilities) && x in PutAll(AllEntries(vulnerabilities))
    ensures HasPackage(vulnerabilities, x.packageName)
  {
    hide Put, PutAll, Entries, PackageReadable;
    PutAllIsMap(AllEntries(vulnerabilities));
    var i :| IsLastOfKey(AllEntries(vulnerabilities), i) && AllEntries(vulnerabilities)[i] == x;
    EntryHasPackage(vulnerabilities, x);
  }

  lemma {:induction false} EntryHasPackage(vulnerabilities: seq<Vulnerability>, x: Advisory)
    requires AllReadable(vulnerabilities) && x in AllEntries(vulnerabilities)
    ensures HasPackage(vulnerabilities, x.packageName)
  {
    hide Entries, PackageReadable;
    var n := |vulnerabilities| - 1;
    assert vulnerabilities == vulnerabilities[..n] + [vulnerabilities[n]] && vulnerabilities[n] in vulnerabilities;
    if x in Entries(vulnerabilities[n]) {
      EntriesNamePackage(vulnerabilities[n]);
    } else {
      EntryHasPackage(vulnerabilities[..n], x);
    }
  }

  /**
   Despite the overwriting, the extracted advisories of a package are exactly the last ones the package itself set
   for each identifier, when the package names are distinct and have no colon.
   */
  lemma {:induction false} AdvisoriesOfPackage(vulnerabilities: seq<Vulnerability>, v: Vulnerability, x: Advisory)
    requires AllReadable(vulnerabilities) && ColonFree(vulnerabilities) && Text.DistinctBy(vulnerabilities, NameOf)
    requires v in vulnerabilities && x.packageName == v.packageName
    ensures x in PutAll(AllEntries(vulnerabilities)) <==> exists i :: IsLastOfKey(Entries(v), i) && Entries(v)[i] == x
  {
    hide Put, Entries, PackageReadable, IsLastOfKey, PutAll, PutEach, Key, Text.DistinctBy;
    var n := |vulnerabilities| - 1;
    var before, last := vulnerabilities[..n], vulnerabilities[n];
    assert vulnerabilities == before + [last] && last in vulnerabilities;
    NamesOfPrefix(vulnerabilities);
    PutAllParts(AllEntries(before), Entries(last));
    PutAllDistinct(AllEntries(before));
    EntriesNamePackage(last);
    if v == last {
      forall y | y in PutAll(AllEntries(before))
        ensures y.packageName != x.packageName
      {
        NamesInMap(before, y);
        var w :| w in before && w.packageName == y.packageName;
        var k :| 0 <= k < n && vulnerabilities[k] == w;
        DifferentNames(vulnerabilities, k, n);
      }
      OwnEntriesOnly(PutAll(AllEntries(before)), Entries(last), x);
      PutAllIsMap(Entries(v));
    } else {
      var k :| 0 <= k < n && vulnerabilities[k] == v;
      DifferentNames(vulnerabilities, k, n);
      OtherEntriesKeep(PutAll(AllEntries(before)), Entries(last), x);
      AdvisoriesOfPackage(before, v, x);
    }
  }

  lemma NamesOfPrefix(vulnerabilities: seq<Vulnerability>)
    requires vulnerabilities != [] && Text.DistinctBy(vulnerabilities, NameOf)
    ensures Text.DistinctBy(vulnerabilities[..|vulnerabilities| - 1], NameOf)
  {}

  ghost predicate HasNoFailures(exceptions: seq<Exception>, advisories: seq<Advisory>, now: int) {
    forall f :: !Fails(f, exceptions, advisories, now)
  }

  lemma FailureCounts(f: Failure, a: Advisory, exceptions: seq<Exception>, advisories: seq<Advisory>, now: int)
    requires a in advisories && FailsAdvisory(f, a, exceptions)
    ensures Fails(f, exceptions, advisories, now)
  {
    hide FailsAdvisory;
  }

  /**
   A serious failure is reported exactly if, among the entries of all records, some last one of its key is serious.
   */
  lemma SeriousFailures(vulnerabilities: seq<Vulnerability>, exceptions: seq<Exception>, now: int)
    requires AllReadable(vulnerabilities)
    ensures (exists f: Failure ::
               f.SeriousAdvisory? && Fails(f, exceptions, PutAll(AllEntries(vulnerabilities)), now)) <==>
            exists i ::
              IsLastOfKey(AllEntries(vulnerabilities), i) && IsSerious(AllEntries(vulnerabilities)[i].severity)
  {
    hide Put, PutAll, AllEntries, IsLastOfKey, PackageReadable, Key;
    var entries := AllEntries(vulnerabilities);
    PutAllIsMap(entries);
    forall i
      ensures IsLastOfKey(entries, i) ==> 0 <= i < |entries|
    {
      LastInRange(entries, i);
    }
    if i :| IsLastOfKey(entries, i) && IsSerious(entries[i].severity) {
      var a := entries[i];
      FailureCounts(SeriousAdvisory(a.severity, a.advisoryId, a.packageName, a.title), a, exceptions, PutAll(entries),
                    now);
    }
    if f: Failure :| f.SeriousAdvisory? && Fails(f, exceptions, PutAll(entries), now) {
      var a :| a in PutAll(entries) && FailsAdvisory(f, a, exceptions);
      var i :| IsLastOfKey(entries, i) && entries[i] == a;
    }
  }

  /** A package record that is high or critical. */
  predicate IsSeriousRecord(v: Vulnerability) {
    NormalizeSeverity(v.severity).Some? && IsSerious(NormalizeSeverity(v.severity).value)
  }

  /** An entry of a record after the k-th. */
  ghost predicate IsLater(vulnerabilities: seq<Vulnerability>, k: nat, y: Advisory)
    requires AllReadable(vulnerabilities)
  {
    exists l :: k < l < |vulnerabilities| && y in Entries(vulnerabilities[l])
  }

  /** A serious entry of a package is the last of its key among the entries of all records. */
  ghost predicate SeriousSurvives(vulnerabilities: seq<Vulnerability>, name: string)
    requires AllReadable(vulnerabilities)
  {
    var entries := AllEntries(vulnerabilities);
    exists i :: IsLastOfKey(entries, i) && entries[i].packageName == name && IsSerious(entries[i].severity)
  }

  /**
   A serious failure names a package exactly if a high or critical entry of the package is the last of its key, whatever
   the names of the packages.
   */
  lemma PackageIsReported(vulnerabilities: seq<Vulnerability>, exceptions: seq<Exception>, now: int, name: string)
    requires AllReadable(vulnerabilities)
    ensures (exists f: Failure :: && f.SeriousAdvisory? && f.packageName == name
                                  && Fails(f, exceptions, PutAll(AllEntries(vulnerabilities)), now))
            <==> SeriousSurvives(vulnerabilities, name)
  {
    hide Put, PutAll, AllEntries, IsLastOfKey, PackageReadable, Key;
    var entries := AllEntries(vulnerabilities);
    PutAllIsMap(entries);
    forall i
      ensures IsLastOfKey(entries, i) ==> 0 <= i < |entries|
    {
      LastInRange(entries, i);
    }
    if i :| IsLastOfKey(entries, i) && entries[i].packageName == name && IsSerious(entries[i].severity) {
      var a := entries[i];
      var f := SeriousAdvisory(a.severity, a.advisoryId, a.packageName, a.title);
      FailureCounts(f, a, exceptions, PutAll(entries), now);
    }
    if f: Failure :| f.SeriousAdvisory? && f.packageName == name && Fails(f, exceptions, PutAll(entries), now) {
      var a :| a in PutAll(entries) && FailsAdvisory(f, a, exceptions);
      var i :| IsLastOfKey(entries, i) && entries[i] == a;
    }
  }

  /** A later record sets the key that a record's own entry has. */
  ghost predicate IsOverwritten(vulnerabilities: seq<Vulnerability>, k: nat)
    requires AllReadable(vulnerabilities) && k < |vulnerabilities|
  {
    exists y :: IsLater(vulnerabilities, k, y) && Key(y) == Key(OwnEntry(vulnerabilities[k]))
  }

  function OwnEntry(v: Vulnerability): Advisory
    requires PackageReadable(v)
  {
    PackageEntry(v, NormalizeSeverity(v.severity).value)
  }

  function Position(vulnerabilities: seq<Vulnerability>, k: nat): int
    requires AllReadable(vulnerabilities) && k < |vulnerabilities|
  {
    |AllEntries(vulnerabilities[..k + 1])| - 1
  }

  lemma OwnEntryIsLast(v: Vulnerability)
    requires PackageReadable(v) && IsSeriousRecord(v)
    ensures |Entries(v)| > 0 && Entries(v)[|Entries(v)| - 1] == OwnEntry(v)
  {
    hide ConcreteEntries, NormalizeSeverity, SeverityExplained, CausesReadable, PackageEntry;
  }

  /** The entries after a serious record's own one are those of the later records. */
  lemma {:induction false} LaterEntries(vulnerabilities: seq<Vulnerability>, k: nat)
    requires AllReadable(vulnerabilities) && k < |vulnerabilities| && IsSeriousRecord(vulnerabilities[k])
    ensures var e, p := AllEntries(vulnerabilities), Position(vulnerabilities, k);
            && 0 <= p < |e| && e[p] == OwnEntry(vulnerabilities[k])
            && forall y :: y in e[p + 1..] <==> IsLater(vulnerabilities, k, y)
  {
    hide Entries, PackageReadable, IsSeriousRecord, OwnEntry;
    var n := |vulnerabilities| - 1;
    var before, last := vulnerabilities[..n], vulnerabilities[n];
    assert vulnerabilities == before + [last] && last in vulnerabilities;
    var e := AllEntries(vulnerabilities);
    assert e == AllEntries(before) + Entries(last);
    if k == n {
      assert vulnerabilities[..k + 1] == vulnerabilities;
      OwnEntryIsLast(last);
    } else {
      LaterEntries(before, k);
      assert before[..k + 1] == vulnerabilities[..k + 1];
      var p := Position(vulnerabilities, k);
      assert e[p + 1..] == AllEntries(before)[p + 1..] + Entries(last);
      forall y
        ensures IsLater(vulnerabilities, k, y) <==> IsLater(before, k, y) || y in Entries(last)
      {
        LaterStep(vulnerabilities, k, y);
      }
    }
  }

  lemma LaterStep(vulnerabilities: seq<Vulnerability>, k: nat, y: Advisory)
    requires AllReadable(vulnerabilities) && k < |vulnerabilities| - 1
    ensures var n := |vulnerabilities| - 1;
            IsLater(vulnerabilities, k, y) <==> IsLater(vulnerabilities[..n], k, y) || y in Entries(vulnerabilities[n])
  {
    hide Entries, PackageReadable;
    var n := |vulnerabilities| - 1;
    assert forall l :: 0 <= l < n ==> vulnerabilities[..n][l] == vulnerabilities[l];
  }

  /** A serious record's own entry is the last of its key exactly if no later record sets the key. */
  lemma LastUnlessOverwritten(vulnerabilities: seq<Vulnerability>, k: nat)
    requires AllReadable(vulnerabilities) && k < |vulnerabilities| && IsSeriousRecord(vulnerabilities[k])
    ensures IsLastOfKey(AllEntries(vulnerabilities), Position(vulnerabilities, k)) <==>
              !IsOverwritten(vulnerabilities, k)
  {
    hide IsLater, AllReadable, IsSeriousRecord, AllEntries, Key, Position, OwnEntry;
    LaterEntries(vulnerabilities, k);
    var e, p := AllEntries(vulnerabilities), Position(vulnerabilities, k);
    var rest := e[p + 1..];
    assert forall j :: p < j < |e| ==> e[j] == rest[j - p - 1] && e[j] in rest;
  }

  /** What is extracted of a package under the key of its serious record is the record's own entry. */
  lemma OwnEntryOnly(vulnerabilities: seq<Vulnerability>, k: nat, a: Advisory)
    requires AllReadable(vulnerabilities) && Text.DistinctBy(vulnerabilities, NameOf) && k < |vulnerabilities|
    requires IsSeriousRecord(vulnerabilities[k]) && a in PutAll(AllEntries(vulnerabilities))
    requires a.packageName == vulnerabilities[k].packageName && Key(a) == Key(OwnEntry(vulnerabilities[k]))
    ensures IsLastOfKey(AllEntries(vulnerabilities), Position(vulnerabilities, k))
  {
    hide IsLater, AllReadable, IsSeriousRecord, Put, PutAll, AllEntries, Key, Position, OwnEntry, Text.DistinctBy;
    var e, p := AllEntries(vulnerabilities), Position(vulnerabilities, k);
    LaterEntries(vulnerabilities, k);
    PutAllIsMap(e);
    var i :| IsLastOfKey(e, i) && e[i] == a;
    if p < i {
      assert e[i] == e[p + 1..][i - p - 1] && e[i] in e[p + 1..];
      LaterHasOtherName(vulnerabilities, k, e[i]);
    }
  }

  lemma LaterHasOtherName(vulnerabilities: seq<Vulnerability>, k: nat, y: Advisory)
    requires AllReadable(vulnerabilities) && Text.DistinctBy(vulnerabilities, NameOf) && k < |vulnerabilities|
    requires IsLater(vulnerabilities, k, y)
    ensures y.packageName != vulnerabilities[k].packageName && HasPackage(vulnerabilities, y.packageName)
  {
    hide Entries, PackageReadable, Text.DistinctBy;
    var l :| k < l < |vulnerabilities| && y in Entries(vulnerabilities[l]);
    assert vulnerabilities[l] in vulnerabilities;
    EntriesNamePackage(vulnerabilities[l]);
    DifferentNames(vulnerabilities, k, l);
  }

  lemma DifferentNames(vulnerabilities: seq<Vulnerability>, k: nat, l: nat)
    requires Text.DistinctBy(vulnerabilities, NameOf) && k < l < |vulnerabilities|
    ensures vulnerabilities[k].packageName != vulnerabilities[l].packageName
  {
    assert NameOf(vulnerabilities[k]) != NameOf(vulnerabilities[l]);
  }

  /** The failure that reports a package record. */
  function OwnFailure(v: Vulnerability): Failure
    requires PackageReadable(v)
  {
    SeriousAdvisory(OwnEntry(v).severity, OwnEntry(v).advisoryId, v.packageName, OwnEntry(v).title)
  }

  lemma OwnFailureIsSerious(v: Vulnerability, exceptions: seq<Exception>, now: int)
    requires PackageReadable(v) && IsSeriousRecord(v)
    ensures FailsAdvisory(OwnFailure(v), OwnEntry(v), exceptions)
    ensures forall x :: !FailsException(OwnFailure(v), x, now)
    ensures forall a :: FailsAdvisory(OwnFailure(v), a, exceptions) ==>
              Key(a) == Key(OwnEntry(v)) && a.packageName == v.packageName
  {
    hide PackageReadable, NormalizeSeverity;
  }

  /**
   The own entry of a high or critical package record is reported exactly if no later record sets its key. An advisory
   of the package can still be reported when it is not.
   */
  lemma SeriousIsReported(vulnerabilities: seq<Vulnerability>, exceptions: seq<Exception>, now: int, k: nat)
    requires AllReadable(vulnerabilities) && Text.DistinctBy(vulnerabilities, NameOf) && k < |vulnerabilities|
    requires IsSeriousRecord(vulnerabilities[k])
    ensures Fails(OwnFailure(vulnerabilities[k]), exceptions, PutAll(AllEntries(vulnerabilities)), now) <==>
            !IsOverwritten(vulnerabilities, k)
  {
    hide PackageReadable, IsSeriousRecord, Put, PutAll, AllEntries, IsOverwritten, Text.DistinctBy, Position,
         IsLastOfKey, Key, OwnEntry, OwnFailure, FailsAdvisory, FailsException, Entries;
    var v, advisories := vulnerabilities[k], PutAll(AllEntries(vulnerabilities));
    assert v in vulnerabilities;
    LaterEntries(vulnerabilities, k);
    LastUnlessOverwritten(vulnerabilities, k);
    PutAllIsMap(AllEntries(vulnerabilities));
    OwnFailureIsSerious(v, exceptions, now);
    if !IsOverwritten(vulnerabilities, k) {
      FailureCounts(OwnFailure(v), OwnEntry(v), exceptions, advisories, now);
    }
    if Fails(OwnFailure(v), exceptions, advisories, now) {
      var a :| a in advisories && FailsAdvisory(OwnFailure(v), a, exceptions);
      OwnEntryOnly(vulnerabilities, k, a);
    }
  }

  /** Package names without colons leave nothing overwritten. */
  lemma ColonFreeKeeps(vulnerabilities: seq<Vulnerability>, k: nat)
    requires AllReadable(vulnerabilities) && ColonFree(vulnerabilities) && Text.DistinctBy(vulnerabilities, NameOf)
    requires k < |vulnerabilities|
    ensures !IsOverwritten(vulnerabilities, k)
  {
    hide PackageReadable, NormalizeSeverity, Key, IsLater, Text.DistinctBy;
    assert vulnerabilities[k] in vulnerabilities;
    forall y | IsLater(vulnerabilities, k, y)
      ensures Key(y) != Key(OwnEntry(vulnerabilities[k]))
    {
      LaterHasOtherName(vulnerabilities, k, y);
      if Key(y) == Key(OwnEntry(vulnerabilities[k])) {
        KeyNamesPackage(y, OwnEntry(vulnerabilities[k]));
      }
    }
  }

  /**
   Without failures every high or critical package record is overwritten by a later one; so there is none when package
   names have no colon.
   */
  lemma NoSeriousPackage(vulnerabilities: seq<Vulnerability>, exceptions: seq<Exception>, now: int, k: nat)
    requires AllReadable(vulnerabilities) && Text.DistinctBy(vulnerabilities, NameOf) && k < |vulnerabilities|
    requires HasNoFailures(exceptions, PutAll(AllEntries(vulnerabilities)), now)
    ensures IsSeriousRecord(vulnerabilities[k]) ==> IsOverwritten(vulnerabilities, k)
    ensures ColonFree(vulnerabilities) ==> !IsSeriousRecord(vulnerabilities[k])
  {
    hide Put, PutAll, AllEntries, CausesReadable, SeverityExplained, NormalizeSeverity, Fails, IsOverwritten, ColonFree,
         Text.DistinctBy;
    assert vulnerabilities[k] in vulnerabilities;
    if IsSeriousRecord(vulnerabilities[k]) {
      SeriousIsReported(vulnerabilities, exceptions, now, k);
    }
    if ColonFree(vulnerabilities) {
      ColonFreeKeeps(vulnerabilities, k);
    }
  }

  lemma {:induction false} AcceptedMembers(advisories: seq<Advisory>, exceptions: seq<Exception>, now: int, a: Advisory)
    ensures a in AcceptedOf(advisories, exceptions, now) <==> a in advisories && IsAcceptable(a, exceptions, now)
  {
    hide IsAcceptable;
    if advisories != [] {
      var n := |advisories| - 1;
      AcceptedMembers(advisories[..n], exceptions, now, a);
      assert advisories == advisories[..n] + [advisories[n]];
    }
  }

  /** Without failures the accepted advisories are exactly the moderate ones, each with a live moderate exception. */
  lemma AcceptedAreTheModerate(advisories: seq<Advisory>, exceptions: seq<Exception>, now: int, a: Advisory)
    requires ExceptionsValid(exceptions) && HasNoFailures(exceptions, advisories, now)
    ensures a in AcceptedOf(advisories, exceptions, now) <==> a in advisories && a.severity == Moderate
    ensures a in AcceptedOf(advisories, exceptions, now) ==>
              exists x ::
                x in exceptions && x.advisoryId == a.advisoryId && x.severity == Moderate && IsLive(x, now)
                && !IsIncomplete(x)
  {
    hide IsIncomplete, Text.DistinctBy, IsBlank;
    AcceptedMembers(advisories, exceptions, now, a);
    forall x | x in exceptions
      ensures IsLive(x, now) && !IsIncomplete(x)
    {
      assert FailsException(ExceptionExpired(x.advisoryId, x.expiresAt), x, now) ==>
             Fails(ExceptionExpired(x.advisoryId, x.expiresAt), exceptions, advisories, now);
      assert FailsException(ExceptionIncomplete(x.advisoryId), x, now) ==>
             Fails(ExceptionIncomplete(x.advisoryId), exceptions, advisories, now);
    }
    if a in advisories && a.severity == Moderate {
      assert FailsAdvisory(NotCovered(a.advisoryId), a, exceptions) ==>
               Fails(NotCovered(a.advisoryId), exceptions, advisories, now);
      var x :| x in exceptions && x.advisoryId == a.advisoryId;
      var f := OtherSeverity(x.advisoryId, x.severity);
      assert x.severity != Moderate ==> DeclaresOther(f, a, exceptions);
      assert FailsAdvisory(f, a, exceptions) ==> Fails(f, exceptions, advisories, now);
      assert IsLive(x, now);
    }
  }

  /** The severity of a package record survives the overwriting. */
  ghost predicate IsRepresented(v: Vulnerability)
    requires PackageReadable(v)
  {
    exists i :: IsLastOfKey(Entries(v), i) && Entries(v)[i].severity == NormalizeSeverity(v.severity).value
  }

  /** A moderate entry of a package is the last of its key among the entries of all records. */
  ghost predicate ModerateSurvives(vulnerabilities: seq<Vulnerability>, name: string)
    requires AllReadable(vulnerabilities)
  {
    var entries := AllEntries(vulnerabilities);
    exists i :: IsLastOfKey(entries, i) && entries[i].packageName == name && entries[i].severity == Moderate
  }

  /** An audit without failures accepts a moderate advisory of a package exactly if one survives the overwriting. */
  lemma AcceptedIfSurviving(vulnerabilities: seq<Vulnerability>, exceptions: seq<Exception>, now: int, name: string)
    requires AllReadable(vulnerabilities) && ExceptionsValid(exceptions)
    requires HasNoFailures(exceptions, PutAll(AllEntries(vulnerabilities)), now)
    ensures (exists a :: a in AcceptedOf(PutAll(AllEntries(vulnerabilities)), exceptions, now) && a.packageName == name)
            <==> ModerateSurvives(vulnerabilities, name)
  {
    hide Put, PutAll, AllEntries, PackageReadable, HasNoFailures, ExceptionsValid, Key, IsAcceptable, IsLastOfKey;
    var entries := AllEntries(vulnerabilities);
    PutAllIsMap(entries);
    forall i
      ensures IsLastOfKey(entries, i) ==> 0 <= i < |entries|
    {
      LastInRange(entries, i);
    }
    if a :| a in AcceptedOf(PutAll(entries), exceptions, now) && a.packageName == name {
      AcceptedAreTheModerate(PutAll(entries), exceptions, now, a);
    }
    if i :| IsLastOfKey(entries, i) && entries[i].packageName == name && entries[i].severity == Moderate {
      AcceptedAreTheModerate(PutAll(entries), exceptions, now, entries[i]);
    }
  }

  /**
   A moderate package record is reviewed, that is, one of its moderate advisories is accepted in an audit without
   failures, exactly if a moderate entry of the package survives; with package names that have no colon, exactly if the
   record itself does not overwrite it with a later entry of the same identifier.
   */
  lemma ModeratePackageIsReviewed(vulnerabilities: seq<Vulnerability>, exceptions: seq<Exception>, now: int,
                                  v: Vulnerability)
    requires AllReadable(vulnerabilities) && Text.DistinctBy(vulnerabilities, NameOf)
    requires ExceptionsValid(exceptions) && HasNoFailures(exceptions, PutAll(AllEntries(vulnerabilities)), now)
    requires v in vulnerabilities && NormalizeSeverity(v.severity) == Some(Moderate)
    ensures (exists a ::
               a in AcceptedOf(PutAll(AllEntries(vulnerabilities)), exceptions, now) && a.packageName == v.packageName)
            <==> ModerateSurvives(vulnerabilities, v.packageName)
    ensures ColonFree(vulnerabilities) ==> (ModerateSurvives(vulnerabilities, v.packageName) <==> IsRepresented(v))
  {
    hide Put, PutAll, AllEntries, PackageReadable, NormalizeSeverity, HasNoFailures, ExceptionsValid, Entries, Key,
         IsAcceptable, ColonFree, Text.DistinctBy, ModerateSurvives, AcceptedOf;
    AcceptedIfSurviving(vulnerabilities, exceptions, now, v.packageName);
    if ColonFree(vulnerabilities) {
      SurvivesAsRepresented(vulnerabilities, v);
    }
  }

  lemma SurvivesAsRepresented(vulnerabilities: seq<Vulnerability>, v: Vulnerability)
    requires AllReadable(vulnerabilities) && Text.DistinctBy(vulnerabilities, NameOf) && ColonFree(vulnerabilities)
    requires v in vulnerabilities && NormalizeSeverity(v.severity) == Some(Moderate)
    ensures ModerateSurvives(vulnerabilities, v.packageName) <==> IsRepresented(v)
  {
    hide Put, PutAll, AllEntries, PackageReadable, NormalizeSeverity, Entries, Key, ColonFree, Text.DistinctBy,
         IsLastOfKey;
    var entries := AllEntries(vulnerabilities);
    PutAllIsMap(entries);
    forall i
      ensures IsLastOfKey(entries, i) ==> 0 <= i < |entries|
      ensures IsLastOfKey(Entries(v), i) ==> 0 <= i < |Entries(v)|
    {
      LastInRange(entries, i);
      LastInRange(Entries(v), i);
    }
    if i :| IsLastOfKey(entries, i) && entries[i].packageName == v.packageName && entries[i].severity == Moderate {
      AdvisoriesOfPackage(vulnerabilities, v, entries[i]);
    }
    if i :| IsLastOfKey(Entries(v), i) && Entries(v)[i].severity == Moderate {
      var a := Entries(v)[i];
      assert a in Entries(v);
      EntriesNamePackage(v);
      AdvisoriesOfPackage(vulnerabilities, v, a);
    }
  }

  lemma PlainSeverities()
    ensures NormalizeSeverity(Some("high")) == Some(High) && NormalizeSeverity(Some("low")) == Some(Low)
    ensures NormalizeSeverity(Some("moderate")) == Some(Moderate)
  {
    assert Lower("high") == "high" && Lower("low") == "low" && Lower("moderate") == "moderate";
  }

  lemma PutTwice(a: Advisory, b: Advisory)
    requires Key(a) == Key(b)
    ensures PutAll([a]) == [a] && PutAll([a, b]) == [b]
  {
    hide Key;
    assert [a, b][..1] == [a] && [a][..0] == [];
  }

  lemma MildHasNoFailures(a: Advisory)
    requires a.severity == Low
    ensures HasNoFailures([], [a], 0)
  {}

  lemma OneCause(v: Vulnerability, c: Via)
    requires c.Concrete? && SeverityOf(v, c).Some?
    ensures !NamesPackages([c]) && MaximumSeverity([EntryOf(v, c)]) == SeverityOf(v, c)
  {
    hide NormalizeSeverity;
    assert [EntryOf(v, c)][..0] == [];
  }

  lemma SameColonKey(a: Advisory, b: Advisory)
    requires a.advisoryId == "npm-package-" + "b:c" && a.packageName == "b:c"
    requires b.advisoryId == "npm-" + "package-b:c:b" && b.packageName == "c"
    ensures Key(a) == Key(b)
  {
    assert Key(a) == "npm-package-b:c:b:c" && Key(b) == "npm-package-b:c:b:c";
  }

  lemma NoCauses(v: Vulnerability, severity: Severity)
    requires v.via == Some([]) && NormalizeSeverity(v.severity) == Some(severity)
    ensures PackageReadable(v) && Entries(v) == [PackageEntry(v, severity)]
  {
    hide NormalizeSeverity;
  }

  lemma MildCause(v: Vulnerability, c: Via)
    requires v.via == Some([c]) && c.Concrete?
    requires NormalizeSeverity(v.severity) == Some(Low) && SeverityOf(v, c) == Some(Low)
    ensures PackageReadable(v) && Entries(v) == [EntryOf(v, c)]
  {
    hide NormalizeSeverity, SeverityOf, EntryOf, MaximumSeverity;
    OneCauseEntry(v, c);
    OneCause(v, c);
  }

  /** With a colon in package names a high record can be overwritten by an entry of another package. */
  lemma ColonsHideAPackage() returns (high: Vulnerability, other: Vulnerability)
    ensures high.packageName != other.packageName && AllReadable([high, other])
            && NormalizeSeverity(high.severity) == Some(High)
    ensures IsOverwritten([high, other], 0)
    ensures HasNoFailures([], PutAll(AllEntries([high, other])), 0)
  {
    hide NormalizeSeverity, Put, PutAll, HasNoFailures, Key, PackageReadable, AllReadable, Entries, AllEntries;
    PlainSeverities();
    var cause := Concrete(None, Some("package-b:c:b"), Some("low"), None);
    high := Vulnerability("b:c", Some("high"), Some([]));
    other := Vulnerability("c", Some("low"), Some([cause]));
    NoCauses(high, High);
    var first := PackageEntry(high, High);
    MildCause(other, cause);
    var second := EntryOf(other, cause);
    TwoPackages(high, other);
    assert [first] + [second] == [first, second];
    SameColonKey(first, second);
    assert second in Entries([high, other][1]);
    assert IsLater([high, other], 0, second);
    PutTwice(first, second);
    MildHasNoFailures(second);
  }

  /** A record whose own entry is overwritten, and whose advisory is reported all the same. */
  lemma OverwrittenCanBeReported() returns (high: Vulnerability, other: Vulnerability)
    ensures AllReadable([high, other]) && NormalizeSeverity(high.severity) == Some(High)
    ensures IsOverwritten([high, other], 0) && SeriousSurvives([high, other], high.packageName)
  {
    hide NormalizeSeverity, Key, PackageReadable, AllReadable, Entries, AllEntries;
    PlainSeverities();
    var worse, cause :=
      Concrete(None, Some("1"), Some("high"), None), Concrete(None, Some("package-b:c:b"), Some("low"), None);
    high := Vulnerability("b:c", Some("high"), Some([worse]));
    other := Vulnerability("c", Some("low"), Some([cause]));
    SeriousCause(high, worse);
    MildCause(other, cause);
    TwoPackages(high, other);
    var first, second, third := EntryOf(high, worse), PackageEntry(high, High), EntryOf(other, cause);
    assert AllEntries([high, other]) == [first, second, third];
    SameColonKey(second, third);
    assert Key(first) == "npm-1:b:c" && Key(second) == "npm-package-b:c:b:c" by {
      KeyTexts(first, second);
    }
    assert IsLastOfKey([first, second, third], 0);
    assert third in Entries([high, other][1]);
    assert IsLater([high, other], 0, third);
  }

  lemma KeyTexts(a: Advisory, b: Advisory)
    requires a.advisoryId == "npm-" + "1" && a.packageName == "b:c"
    requires b.advisoryId == "npm-package-" + "b:c" && b.packageName == "b:c"
    ensures Key(a) == "npm-1:b:c" && Key(b) == "npm-package-b:c:b:c"
  {}

  lemma SeriousCause(v: Vulnerability, c: Via)
    requires v.via == Some([c]) && c.Concrete?
    requires NormalizeSeverity(v.severity) == Some(High) && SeverityOf(v, c) == Some(High)
    ensures PackageReadable(v) && Entries(v) == [EntryOf(v, c), PackageEntry(v, High)]
  {
    hide NormalizeSeverity, SeverityOf, EntryOf, MaximumSeverity, PackageEntry;
    OneCauseEntry(v, c);
    OneCause(v, c);
  }

  lemma TwoPackages(v: Vulnerability, w: Vulnerability)
    requires PackageReadable(v) && PackageReadable(w)
    ensures AllReadable([v, w]) && AllEntries([v, w]) == Entries(v) + Entries(w)
  {
    hide PackageReadable, Entries;
    assert AllReadable([v]) && AllReadable([]);
    assert [v][..0] == [] && AllEntries([v]) == AllEntries([]) + Entries(v) == Entries(v);
    assert [v, w][..1] == [v] && AllEntries([v, w]) == AllEntries([v]) + Entries(w);
  }

  lemma TwoCauses(v: Vulnerability, c: Via, d: Via)
    requires c.Concrete? && SeverityOf(v, c) == Some(Moderate) && d.Concrete? && SeverityOf(v, d) == Some(Low)
    ensures CausesReadable(v, [c, d]) && ConcreteEntries(v, [c, d]) == [EntryOf(v, c), EntryOf(v, d)]
  {
    hide SeverityOf, AdvisoryId, EntryOf;
    OneCauseEntry(v, c);
    assert [c, d][..1] == [c];
  }

  lemma OneCauseEntry(v: Vulnerability, c: Via)
    requires c.Concrete? && SeverityOf(v, c).Some?
    ensures CausesReadable(v, [c]) && ConcreteEntries(v, [c]) == [EntryOf(v, c)]
  {
    hide SeverityOf, AdvisoryId, EntryOf;
    assert [c][..0] == [];
  }

  lemma WorseOfTwo(a: Advisory, b: Advisory)
    requires a.severity == Moderate && b.severity == Low
    ensures MaximumSeverity([a, b]) == Some(Moderate)
  {
    hide MaximumSeverity;
    assert a in [a, b];
  }

  /** A repeated advisory identifier can leave a moderate record without any advisory to review. */
  lemma RepetitionHidesAModerate() returns (v: Vulnerability)
    ensures AllReadable([v]) && NormalizeSeverity(v.severity) == Some(Moderate)
    ensures HasNoFailures([], PutAll(AllEntries([v])), 0)
  {
    hide NormalizeSeverity, Put, PutAll, HasNoFailures, MaximumSeverity;
    PlainSeverities();
    var worse, milder :=
      Concrete(None, Some("1"), Some("moderate"), None), Concrete(None, Some("1"), Some("low"), None);
    v := Vulnerability("a", Some("moderate"), Some([worse, milder]));
    var first, second := EntryOf(v, worse), EntryOf(v, milder);
    TwoCauses(v, worse, milder);
    WorseOfTwo(first, second);
    assert Entries(v) == [first, second];
    assert [v][..0] == [] && AllEntries([v]) == [first, second];
    PutTwice(first, second);
    MildHasNoFailures(second);
  }

  // ---------------------------------------------------------------- what the entries say

  /** The five severities in order of weight, read without regard to case. */
  lemma Severities()
    ensures NormalizeSeverity(Some("info")) == Some(Info) && NormalizeSeverity(Some("LOW")) == Some(Low)
    ensures NormalizeSeverity(Some("Moderate")) == Some(Moderate) && NormalizeSeverity(Some("high")) == Some(High)
    ensures NormalizeSeverity(Some("CRITICAL")) == Some(Critical)
    ensures NormalizeSeverity(None) == None && NormalizeSeverity(Some("severe")) == None
    ensures Rank(Info) < Rank(Low) < Rank(Moderate) < Rank(High) < Rank(Critical)
    ensures forall s :: IsSerious(s) <==> Rank(s) > Rank(Moderate)
  {
    LowerCases();
    hide Lower;
  }

  lemma LowerCases()
    ensures Lower("info") == "info" && Lower("LOW") == "low" && Lower("Moderate") == "moderate"
    ensures Lower("high") == "high" && Lower("CRITICAL") == "critical" && Lower("") == "" && Lower("severe") == "severe"
  {}

  /** The text of a severity is read as that severity. */
  lemma SeverityIsRead(s: Severity)
    ensures NormalizeSeverity(Some(SeverityText(s))) == Some(s)
  {
    assert Lower(SeverityText(s)) == SeverityText(s);
    hide Lower;
  }

  /**
   The identifier of an advisory is the last non-empty piece of its URL; without one it is made of source or package.
   */
  lemma IdentifierMeans(packageName: string, c: Via, id: string)
    requires c.Concrete?
    ensures AdvisoryId(packageName, c) == id <==>
              if c.url.Some? && exists p :: p in Split(c.url.value, '/') && p != "" then
                exists k :: IsLastNonEmpty(Split(c.url.value, '/'), k) && Split(c.url.value, '/')[k] == id
              else
                id == "npm-" + if c.source.Some? then c.source.value else packageName
  {
    hide Split, LastPiece;
    if c.url.Some? {
      var pieces := Split(c.url.value, '/');
      var k := LastPieceAt(pieces);
      if LastPiece(pieces).Some? {
        assert pieces[k] in pieces;
        assert forall l :: IsLastNonEmpty(pieces, l) ==> l == k;
      }
    }
  }

  ghost predicate IsLastNonEmpty(pieces: seq<string>, k: int) {
    0 <= k < |pieces| && pieces[k] != "" && forall l :: k < l < |pieces| ==> pieces[l] == ""
  }

  /** The last non-empty piece, if there is one. */
  lemma {:induction false} LastPieceAt(pieces: seq<string>) returns (k: int)
    ensures LastPiece(pieces).Some? ==> IsLastNonEmpty(pieces, k) && LastPiece(pieces) == Some(pieces[k])
    ensures LastPiece(pieces).None? ==> forall p :: p in pieces ==> p == ""
  {
    k := |pieces| - 1;
    if pieces != [] && pieces[k] == "" {
      assert pieces == pieces[..k] + [pieces[k]];
      k := LastPieceAt(pieces[..k]);
    }
  }

  /** An advisory of one of the causes, with the record's severity where the cause has none. */
  ghost predicate IsAdvisoryOf(v: Vulnerability, a: Advisory)
    requires v.via.Some?
  {
    exists c ::
      c in v.via.value && c.Concrete? && a.advisoryId == AdvisoryId(v.packageName, c) && a.packageName == v.packageName
      && NormalizeSeverity(if c.severity == None then v.severity else c.severity) == Some(a.severity)
      && a.title == (if c.title == None then "Unnamed npm advisory" else c.title.value) && a.url == c.url
  }

  /**
   What a record contributes: the advisories of its causes, and itself if it is serious or they do not tell it all.
   */
  lemma EntriesMean(v: Vulnerability, a: Advisory)
    requires PackageReadable(v)
    ensures a in Entries(v) <==>
              || IsAdvisoryOf(v, a)
              || (&& a.advisoryId == "npm-package-" + v.packageName && a.packageName == v.packageName && a.url == None
                  && NormalizeSeverity(v.severity) == Some(a.severity)
                  && a.title ==
                       "Transitive " + SeverityText(a.severity) + " vulnerability reported for " + v.packageName
                  && (|| a.severity == High || a.severity == Critical
                      || (forall c :: c in v.via.value ==> !c.Concrete?) || exists c :: c in v.via.value && c.Package?))
  {
    hide NormalizeSeverity, AdvisoryId, SeverityExplained, SeverityText;
    ConcreteMeans(v, v.via.value, a);
    NoneConcrete(v, v.via.value);
  }

  lemma {:induction false} ConcreteMeans(v: Vulnerability, via: seq<Via>, a: Advisory)
    requires CausesReadable(v, via)
    ensures a in ConcreteEntries(v, via) <==>
              exists c ::
                c in via && c.Concrete? && a.advisoryId == AdvisoryId(v.packageName, c)
                && a.packageName == v.packageName
                && NormalizeSeverity(if c.severity == None then v.severity else c.severity) == Some(a.severity)
                && a.title == (if c.title == None then "Unnamed npm advisory" else c.title.value) && a.url == c.url
  {
    hide NormalizeSeverity, AdvisoryId;
    if via != [] {
      var n := |via| - 1;
      ConcreteMeans(v, via[..n], a);
      assert via == via[..n] + [via[n]];
    }
  }

  lemma {:induction false} NoneConcrete(v: Vulnerability, via: seq<Via>)
    requires CausesReadable(v, via)
    ensures ConcreteEntries(v, via) == [] <==> forall c :: c in via ==> !c.Concrete?
  {
    hide EntryOf, SeverityOf;
    if via != [] {
      var n := |via| - 1;
      NoneConcrete(v, via[..n]);
      assert via == via[..n] + [via[n]] && via[n] in via;
    }
  }

  /** The severities of the records, one by one. */
  function SeveritiesOf(vulnerabilities: seq<Vulnerability>): seq<Option<Severity>> {
    seq(|vulnerabilities|, k requires 0 <= k < |vulnerabilities| => NormalizeSeverity(vulnerabilities[k].severity))
  }

  lemma {:induction false} CountMeans(vulnerabilities: seq<Vulnerability>, severity: Severity)
    ensures CountOf(vulnerabilities, severity) == multiset(SeveritiesOf(vulnerabilities))[Some(severity)]
  {
    hide NormalizeSeverity;
    if vulnerabilities != [] {
      var n := |vulnerabilities| - 1;
      CountMeans(vulnerabilities[..n], severity);
      assert SeveritiesOf(vulnerabilities) ==
             SeveritiesOf(vulnerabilities[..n]) + [NormalizeSeverity(vulnerabilities[n].severity)];
    }
  }

  /** The metadata that is accepted: one count per severity, and their number. */
  lemma MetadataMeans(m: Metadata, vulnerabilities: seq<Vulnerability>)
    ensures MetadataExact(m, vulnerabilities) <==>
              var all := multiset(SeveritiesOf(vulnerabilities));
              && m.info == all[Some(Info)] && m.low == all[Some(Low)] && m.moderate == all[Some(Moderate)]
              && m.high == all[Some(High)] && m.critical == all[Some(Critical)] && m.total == |vulnerabilities|
  {
    hide CountOf;
    CountMeans(vulnerabilities, Info);
    CountMeans(vulnerabilities, Low);
    CountMeans(vulnerabilities, Moderate);
    CountMeans(vulnerabilities, High);
    CountMeans(vulnerabilities, Critical);
  }

  /** The exceptions that are stale, in their order and each once. */
  lemma {:induction false} StaleMeans(exceptions: seq<Exception>, advisories: seq<Advisory>, id: string)
    ensures id in StaleIds(exceptions, advisories) <==>
              (exists x :: x in exceptions && x.advisoryId == id) && forall a :: a in advisories ==> a.advisoryId != id
  {
    if exceptions != [] {
      var n := |exceptions| - 1;
      StaleMeans(exceptions[..n], advisories, id);
      assert exceptions == exceptions[..n] + [exceptions[n]];
    }
  }

  /** Each failure and its ground. */
  lemma FailuresMean(f: Failure, exceptions: seq<Exception>, advisories: seq<Advisory>, now: int)
    ensures Fails(f, exceptions, advisories, now) <==>
              match f
              case ExceptionExpired(id, expiresAt) =>
                expiresAt <= now && exists x :: x in exceptions && x.advisoryId == id && x.expiresAt == expiresAt
              case ExceptionIncomplete(id) =>
                exists x ::
                  x in exceptions && x.advisoryId == id && (IsBlank(x.owner) || IsBlank(x.reason) || |x.controls| == 0)
              case SeriousAdvisory(severity, id, packageName, title) =>
                severity in {High, Critical} &&
                exists a ::
                  a in advisories && a.severity == severity && a.advisoryId == id && a.packageName == packageName
                  && a.title == title
              case NotCovered(id) =>
                (exists a :: a in advisories && a.severity == Moderate && a.advisoryId == id)
                && forall x :: x in exceptions ==> x.advisoryId != id
              case OtherSeverity(id, declared) =>
                declared != Moderate && (exists a :: a in advisories && a.severity == Moderate && a.advisoryId == id)
                && exists x :: x in exceptions && x.advisoryId == id && x.severity == declared
  {
    hide IsBlank;
    match f
    case ExceptionExpired(_, _) =>
    case ExceptionIncomplete(_) =>
    case SeriousAdvisory(_, _, _, _) =>
    case NotCovered(_) =>
    case OtherSeverity(_, _) =>
  }

  /** Which advisories are accepted, and which exception files are read. */
  lemma AcceptanceMeans(advisories: seq<Advisory>, exceptions: seq<Exception>, now: int, a: Advisory)
    ensures a in AcceptedOf(advisories, exceptions, now) <==>
              a in advisories && a.severity == Moderate
              && exists x ::
                   x in exceptions && x.advisoryId == a.advisoryId && x.severity == Moderate && now < x.expiresAt
  {
    AcceptedMembers(advisories, exceptions, now, a);
  }
}
