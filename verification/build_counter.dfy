/** The build counter kept in the properties file (`buildNumber.properties`):
    the file is created when missing, the counter is read under a key
    (absent means `"0"`), parsed as a Java int, and, unless the number is
    kept, incremented with the Java `++` and stored back together with a
    `time` entry. Shared by `CreateMojo` and both `CreateXMLMojo`s. */
module BuildCounter {
  import opened Wrappers
  import opened Errors
  import opened JavaInt
  import opened Utils
  import opened VersionRules

  /** The key the timestamp is stored under. */
  const TimeKey: string := "time"

  /** The properties file: whether it exists, and the entries it holds. */
  class PropertiesFile {
    var present: bool
    var entries: map<string, string>

    constructor (present: bool, entries: map<string, string>)
      ensures this.present == present && this.entries == entries
    {
      this.present := present;
      this.entries := entries;
    }

    /** The entries `Properties.load` sees once the file exists (a file
        created empty holds none). */
    function Loaded(): (m: map<string, string>)
      reads this
      ensures !present ==> m == map[]
      ensures present ==> m == entries
    {
      if present then entries else map[]
    }
  }

  /** The stored counter: `getProperty(key)`, `"0"` when absent, then
      `Integer.parseInt`. */
  function StoredCounter(entries: map<string, string>, key: string): (r: Result<int, Error>)
    ensures key !in entries ==> r == Success(0)
    ensures key in entries ==> (r.Success? <==> ParseInt(entries[key]).Some?)
    ensures key in entries && r.Success? ==> r.value == ParseInt(entries[key]).value
    ensures r.Failure? ==> key in entries && r.error == CounterNotInteger(entries[key])
    ensures r.Success? ==> InInt32(r.value)
  {
    var text := match Lookup(entries, key) case Some(t) => t case None => "0";
    match ParseInt(text)
    case None => Failure(CounterNotInteger(text))
    case Some(n) => Success(n)
  }

  /** The revision of a run: the stored counter, or with increment its Java
      `++` (wrapping at the largest int). */
  function NextRevision(entries: map<string, string>, key: string, keep: bool): (r: Result<int, Error>)
    ensures r.Success? <==> StoredCounter(entries, key).Success?
    ensures r.Success? && keep ==> r.value == StoredCounter(entries, key).value
    ensures r.Success? && !keep ==> r.value == Inc32(StoredCounter(entries, key).value)
    ensures r.Failure? ==> r == StoredCounter(entries, key)
  {
    match StoredCounter(entries, key)
    case Failure(e) => Failure(e)
    case Success(n) => Success(if keep then n else Inc32(n))
  }

  /** The entries an incrementing run stores: the new counter
      (`String.valueOf`) under its key, then the timestamp under `time`. */
  function StoreCounter(entries: map<string, string>, key: string, revision: int, now: string): (m: map<string, string>)
    ensures key in m && TimeKey in m && m[TimeKey] == now
    ensures key != TimeKey ==> m[key] == IntToString(revision)
    ensures forall k :: k in entries && k != key && k != TimeKey ==> k in m && m[k] == entries[k]
    ensures forall k :: k in m ==> k in entries || k == key || k == TimeKey
  {
    entries[key := IntToString(revision)][TimeKey := now]
  }

  /** The counter step of a run on the properties file: create it when
      missing, load, parse, and unless `keep` store the incremented counter
      and the timestamp. */
  method AdvanceCounter(file: PropertiesFile, key: string, keep: bool, now: string) returns (r: Result<int, Error>)
    modifies file
    ensures file.present
    ensures r == NextRevision(old(file.Loaded()), key, keep)
    ensures file.entries ==
              if r.Success? && !keep then StoreCounter(old(file.Loaded()), key, r.value, now)
              else old(file.Loaded())
  {
    if !file.present {
      file.present := true;
      file.entries := map[];
    }
    var text := "0";
    if key in file.entries {
      text := file.entries[key];
    }
    match ParseInt(text)
    case None =>
      return Failure(CounterNotInteger(text));
    case Some(n) =>
      var revision := n;
      if !keep {
        revision := Inc32(n);
        file.entries := file.entries[key := IntToString(revision)][TimeKey := now];
      }
      return Success(revision);
  }

  /** Round trip: what an incrementing run stores is read back by the next
      run as the same number (as long as the key is not `time`). */
  lemma CounterReadBack(entries: map<string, string>, key: string, n: int, now: string)
    requires InInt32(n) && key != TimeKey
    ensures StoredCounter(StoreCounter(entries, key, n, now), key) == Success(n)
  {
    ParseIntToString(n);
  }

  /** A fresh file starts the counter at 0, so the first incrementing run
      yields 1. */
  lemma FirstRunIsOne(key: string, now: string)
    ensures StoredCounter(map[], key) == Success(0)
    ensures NextRevision(map[], key, false) == Success(1)
  {
  }

  /** Two incrementing runs in a row raise the counter by exactly two,
      unless it reaches the largest int. */
  lemma TwoRunsAddTwo(entries: map<string, string>, key: string, n: int, now1: string, now2: string)
    requires key != TimeKey && StoredCounter(entries, key) == Success(n) && n + 1 < MaxInt
    ensures NextRevision(entries, key, false) == Success(n + 1)
    ensures var first := StoreCounter(entries, key, n + 1, now1);
            NextRevision(first, key, false) == Success(n + 2)
  {
    CounterReadBack(entries, key, n + 1, now1);
  }

  /** At the largest int the stored counter wraps to the smallest, and the
      next run reads that negative number back. */
  lemma CounterWraps(entries: map<string, string>, key: string, now: string)
    requires key != TimeKey && StoredCounter(entries, key) == Success(MaxInt)
    ensures NextRevision(entries, key, false) == Success(MinInt)
    ensures StoredCounter(StoreCounter(entries, key, MinInt, now), key) == Success(MinInt)
  {
    CounterReadBack(entries, key, MinInt, now);
  }

  /** With the counter key set to `time`, the timestamp overwrites the
      counter just stored: the next run parses the timestamp instead. */
  lemma TimeKeyOverwritesCounter(entries: map<string, string>, n: int, now: string)
    ensures StoredCounter(StoreCounter(entries, TimeKey, n, now), TimeKey) ==
              match ParseInt(now) case Some(t) => Success(t) case None => Failure(CounterNotInteger(now))
  {
  }

  /** The project version the XML mojos compose:
      `majorMinorVersion + "." + buildNumber + (release ? "" : "-SNAPSHOT")`. */
  function ComposeVersion(majorMinor: string, buildNumber: int, release: bool): (v: string)
    ensures EndsWithSuffix(v) <==> !release
  {
    IntToStringEndsInDigit(buildNumber);
    var core := majorMinor + "." + IntToString(buildNumber);
    assert |core| > 0 && IsDigit(core[|core| - 1]) by {
      assert core[|core| - 1] == IntToString(buildNumber)[|IntToString(buildNumber)| - 1];
    }
    SplitSuffixFormat(core, !release);
    core + SuffixText(!release)
  }

  /** When `major.minor.version` holds vLength - 1 dot-separated digit runs,
      the composed version is one that `Utils.updateBuildNumber` accepts:
      its main part is the major/minor text and its build segment the
      counter. */
  lemma ComposedVersionAccepted(majorMinor: string, buildNumber: int, release: bool, vLength: int)
    requires vLength >= 2 && IsMain(majorMinor, vLength) && buildNumber >= 0
    ensures Parse(ComposeVersion(majorMinor, buildNumber, release), vLength) ==
              Some(VersionParts(majorMinor, Some(IntToString(buildNumber)), !release))
  {
    var q := VersionParts(majorMinor, Some(IntToString(buildNumber)), !release);
    IntToStringDigits(buildNumber);
    assert WellFormed(q, vLength);
    ParseFormat(q, vLength);
    FormatWithBuild(majorMinor, IntToString(buildNumber), !release);
  }

  /** After the counter wraps to a negative number, the composed version is
      rejected by `Utils.updateBuildNumber`. */
  lemma ComposedNegativeRejected(majorMinor: string, buildNumber: int, release: bool, vLength: int)
    requires vLength >= 2 && IsMain(majorMinor, vLength) && buildNumber < 0
    ensures Parse(ComposeVersion(majorMinor, buildNumber, release), vLength).None?
  {
    var b := IntToString(buildNumber);
    IntToStringNegative(buildNumber);
    NatToStringValue(-buildNumber);
    assert b[1..] == NatToString(-buildNumber);
    SignedBuildRejected(vLength, majorMinor, b, !release);
  }
}
