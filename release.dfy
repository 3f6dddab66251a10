/**
 * The release manager's version arithmetic: bumping a `major.minor.patch`
 * version, and keeping the list of published versions, newest first, with
 * each version at most once.
 */
module Release {
  import opened Wrappers
  import opened JsText

  datatype Version = Version(major: nat, minor: nat, patch: nat)

  /** `a` is newer than `b`: larger in (major, minor, patch) order. */
  predicate Newer(a: Version, b: Version) {
    a.major > b.major
    || (a.major == b.major && a.minor > b.minor)
    || (a.major == b.major && a.minor == b.minor && a.patch > b.patch)
  }

  function VersionText(v: Version): string {
    NatToString(v.major) + "." + NatToString(v.minor) + "." + NatToString(v.patch)
  }

  /** A version string made of exactly three decimal components. */
  function ParseVersion(s: string): Option<Version> {
    var pieces := Split(s, '.');
    if |pieces| == 3 && IsDigits(pieces[0]) && IsDigits(pieces[1]) && IsDigits(pieces[2]) then
      Some(Version(DigitsValue(pieces[0]), DigitsValue(pieces[1]), DigitsValue(pieces[2])))
    else None
  }

  lemma VersionTextIsJoin(v: Version)
    ensures VersionText(v) == Join([NatToString(v.major), NatToString(v.minor), NatToString(v.patch)], ".")
  {
    var parts := [NatToString(v.major), NatToString(v.minor), NatToString(v.patch)];
    assert parts[1..][1..] == [NatToString(v.patch)];
  }

  lemma DigitsHaveNoPoint(ds: string)
    requires IsDigits(ds)
    ensures '.' !in ds
  {
  }

  /** Reading back the text of a version gives the version. */
  lemma ParseVersionText(v: Version)
    ensures ParseVersion(VersionText(v)) == Some(v)
  {
    var parts := [NatToString(v.major), NatToString(v.minor), NatToString(v.patch)];
    VersionTextIsJoin(v);
    DigitsHaveNoPoint(parts[0]);
    DigitsHaveNoPoint(parts[1]);
    DigitsHaveNoPoint(parts[2]);
    SplitJoin(parts, '.');
    NatToStringValue(v.major);
    NatToStringValue(v.minor);
    NatToStringValue(v.patch);
  }

  // ---------------------------------------------------------------------
  // incrementVersion

  /**
   * A destructured component of `split('.').map(Number)`: a value, NaN, or
   * `undefined` when the split has no such piece.
   */
  datatype Component = Value(n: nat) | NotANumber | Missing

  datatype BumpError =
    | InvalidType        // the `throw` of the `default` branch
    | Unmodelled         // a component that `Number` would read in a way the model does not follow

  /**
   * `Number` of the `i`-th piece: 0 for an empty piece, the value of a
   * digit string, `undefined` when there is no such piece.
   */
  function ComponentAt(pieces: seq<string>, i: nat): Result<Component, BumpError> {
    if i >= |pieces| then Ok(Missing)
    else if pieces[i] == [] then Ok(Value(0))
    else if IsDigits(pieces[i]) then Ok(Value(DigitsValue(pieces[i])))
    else Err(Unmodelled)
  }

  /** The text a component takes in a template string. */
  function ComponentText(c: Component): string {
    match c
    case Value(n) => NatToString(n)
    case NotANumber => "NaN"
    case Missing => "undefined"
  }

  /** `c + 1`: NaN and `undefined` both give NaN. */
  function Succ(c: Component): Component {
    match c
    case Value(n) => Value(n + 1)
    case NotANumber => NotANumber
    case Missing => NotANumber
  }

  /** `incrementVersion(currentVersion, type)`. */
  function IncrementVersion(current: string, kind: string): Result<string, BumpError> {
    var pieces := Split(current, '.');
    if kind == "major" then
      match ComponentAt(pieces, 0)
      case Err(e) => Err(e)
      case Ok(major) => Ok(ComponentText(Succ(major)) + ".0.0")
    else if kind == "minor" then
      match (ComponentAt(pieces, 0), ComponentAt(pieces, 1))
      case (Ok(major), Ok(minor)) => Ok(ComponentText(major) + "." + ComponentText(Succ(minor)) + ".0")
      case _ => Err(Unmodelled)
    else if kind == "patch" then
      match (ComponentAt(pieces, 0), ComponentAt(pieces, 1), ComponentAt(pieces, 2))
      case (Ok(major), Ok(minor), Ok(patch)) =>
        Ok(ComponentText(major) + "." + ComponentText(minor) + "." + ComponentText(Succ(patch)))
      case _ => Err(Unmodelled)
    else Err(InvalidType)
  }

  /** The version each kind of bump leads to. */
  function Bumped(v: Version, kind: string): Version {
    if kind == "major" then Version(v.major + 1, 0, 0)
    else if kind == "minor" then Version(v.major, v.minor + 1, 0)
    else Version(v.major, v.minor, v.patch + 1)
  }

  /** The kinds the command line accepts. */
  predicate IsBumpKind(kind: string) {
    kind == "major" || kind == "minor" || kind == "patch"
  }

  /**
   * On a well-formed version each kind of bump gives the text of the
   * bumped version, and that version is newer: `major` resets minor and
   * patch, `minor` resets patch.
   */
  lemma IncrementWellFormed(v: Version, kind: string)
    requires IsBumpKind(kind)
    ensures IncrementVersion(VersionText(v), kind) == Ok(VersionText(Bumped(v, kind)))
    ensures Newer(Bumped(v, kind), v)
  {
    var parts := [NatToString(v.major), NatToString(v.minor), NatToString(v.patch)];
    VersionTextIsJoin(v);
    DigitsHaveNoPoint(parts[0]);
    DigitsHaveNoPoint(parts[1]);
    DigitsHaveNoPoint(parts[2]);
    SplitJoin(parts, '.');
    assert Split(VersionText(v), '.') == parts;
    NatToStringValue(v.major);
    NatToStringValue(v.minor);
    NatToStringValue(v.patch);
    assert ComponentAt(parts, 0) == Ok(Value(v.major));
    assert ComponentAt(parts, 1) == Ok(Value(v.minor));
    assert ComponentAt(parts, 2) == Ok(Value(v.patch));
    assert NatToString(0) == "0";
    var b := Bumped(v, kind);
    if kind == "major" {
      assert IncrementVersion(VersionText(v), kind) == Ok(NatToString(v.major + 1) + ".0.0");
      assert NatToString(v.major + 1) + ".0.0"
          == NatToString(v.major + 1) + "." + NatToString(0) + "." + NatToString(0);
    } else if kind == "minor" {
      assert IncrementVersion(VersionText(v), kind) == Ok(NatToString(v.major) + "." + NatToString(v.minor + 1) + ".0");
      assert NatToString(v.major) + "." + NatToString(v.minor + 1) + ".0"
          == NatToString(v.major) + "." + NatToString(v.minor + 1) + "." + NatToString(0);
    } else {
      assert IncrementVersion(VersionText(v), kind) == Ok(NatToString(v.major) + "." + NatToString(v.minor) + "." + NatToString(v.patch + 1));
    }
  }

  /** Any other type is refused, whatever the version. */
  lemma IncrementInvalidType(current: string, kind: string)
    requires !IsBumpKind(kind)
    ensures IncrementVersion(current, kind) == Err(InvalidType)
  {
  }

  /** The command line only starts a release for an accepted kind, so the `throw` is never reached from it. */
  lemma CliNeverThrowsInvalidType(current: string, command: string)
    requires IsBumpKind(command)
    ensures IncrementVersion(current, command) != Err(InvalidType)
  {
  }

  /** A missing patch component is `undefined`, and `undefined + 1` is NaN, printed `NaN`. */
  lemma PatchOfShortVersion()
    ensures IncrementVersion("1.2", "patch") == Ok("1.2.NaN")
  {
    assert Split("1.2", '.') == ["1", "2"] by {
      assert "1.2" == "1" + ['.'] + "2";
      SplitAfterPiece("1", "2", '.');
      SplitNoSeparator("2", '.');
    }
    assert DigitsValue("1") == 1;
    assert DigitsValue("2") == 2;
    assert ComponentAt(["1", "2"], 0) == Ok(Value(1));
    assert ComponentAt(["1", "2"], 1) == Ok(Value(2));
    assert ComponentAt(["1", "2"], 2) == Ok(Missing);
    assert NatToString(1) == "1" && NatToString(2) == "2";
    assert IncrementVersion("1.2", "patch") == Ok("1" + "." + "2" + "." + "NaN");
    assert "1" + "." + "2" + "." + "NaN" == "1.2.NaN";
  }

  /** A missing minor component prints as `undefined` in a patch bump, and the missing patch bumps to NaN. */
  lemma PatchOfOnePieceVersion()
    ensures IncrementVersion("1", "patch") == Ok("1.undefined.NaN")
  {
    assert Split("1", '.') == ["1"] by {
      SplitNoSeparator("1", '.');
    }
    assert DigitsValue("1") == 1;
    assert ComponentAt(["1"], 0) == Ok(Value(1));
    assert ComponentAt(["1"], 1) == Ok(Missing);
    assert ComponentAt(["1"], 2) == Ok(Missing);
    assert NatToString(1) == "1";
    assert IncrementVersion("1", "patch") == Ok("1" + "." + "undefined" + "." + "NaN");
    assert "1" + "." + "undefined" + "." + "NaN" == "1.undefined.NaN";
  }

  /** A missing minor component is `undefined`, so a minor bump gives NaN there while the rest stays numeric. */
  lemma MinorOfOnePieceVersion()
    ensures IncrementVersion("1", "minor") == Ok("1.NaN.0")
  {
    assert Split("1", '.') == ["1"] by {
      SplitNoSeparator("1", '.');
    }
    assert DigitsValue("1") == 1;
    assert ComponentAt(["1"], 0) == Ok(Value(1));
    assert ComponentAt(["1"], 1) == Ok(Missing);
    assert NatToString(1) == "1";
    assert IncrementVersion("1", "minor") == Ok("1" + "." + "NaN" + ".0");
    assert "1" + "." + "NaN" + ".0" == "1.NaN.0";
  }

  // ---------------------------------------------------------------------
  // The list of published versions

  /** One entry of the versions file. */
  datatype VersionEntry = VersionEntry(version: string, date: string, tag: string, url: string)

  /** The entry `updateGhPages` creates for a version released on `date`. */
  function NewEntry(version: string, date: string): (e: VersionEntry)
    ensures e.version == version && e.tag == "v" + version
  {
    VersionEntry(version, date, "v" + version, "./v" + version + "/FxFilter.js")
  }

  predicate HasVersion(entries: seq<VersionEntry>, version: string) {
    exists k :: 0 <= k < |entries| && entries[k].version == version
  }

  /** The comparator's key: the numeric components (only meaningful on well-formed versions). */
  function Key(e: VersionEntry): Version {
    match ParseVersion(e.version)
    case Some(v) => v
    case None => Version(0, 0, 0)
  }

  predicate WellFormed(entries: seq<VersionEntry>) {
    forall k :: 0 <= k < |entries| ==> ParseVersion(entries[k].version).Some?
  }

  /** Newest first: no entry is newer than one before it. */
  predicate SortedNewestFirst(entries: seq<VersionEntry>) {
    forall i, j :: 0 <= i < j < |entries| ==> !Newer(Key(entries[j]), Key(entries[i]))
  }

  /** Stable insertion of `x` into a list sorted newest first: after every entry at least as new. */
  function Insert(x: VersionEntry, sorted: seq<VersionEntry>): seq<VersionEntry> {
    if sorted == [] then [x]
    else if Newer(Key(x), Key(sorted[0])) then [x] + sorted
    else [sorted[0]] + Insert(x, sorted[1..])
  }

  /** `versions.sort(...)` with the newest-first comparator; the sort is stable. */
  function SortNewestFirst(entries: seq<VersionEntry>): seq<VersionEntry> {
    if entries == [] then []
    else Insert(entries[|entries| - 1], SortNewestFirst(entries[..|entries| - 1]))
  }

  lemma {:induction false} InsertPermutes(x: VersionEntry, sorted: seq<VersionEntry>)
    ensures multiset(Insert(x, sorted)) == multiset(sorted) + multiset{x}
  {
    if sorted != [] && !Newer(Key(x), Key(sorted[0])) {
      InsertPermutes(x, sorted[1..]);
      assert sorted == [sorted[0]] + sorted[1..];
    }
  }

  /** Every entry of the insertion is `x` or an entry of the list. */
  lemma InsertMembers(x: VersionEntry, sorted: seq<VersionEntry>)
    ensures forall e :: e in Insert(x, sorted) <==> e == x || e in sorted
  {
    InsertPermutes(x, sorted);
    forall e ensures e in Insert(x, sorted) <==> e == x || e in sorted {
      assert e in Insert(x, sorted) <==> e in multiset(Insert(x, sorted));
      assert e in sorted <==> e in multiset(sorted);
    }
  }

  lemma {:induction false} InsertSorted(x: VersionEntry, sorted: seq<VersionEntry>)
    requires SortedNewestFirst(sorted)
    ensures SortedNewestFirst(Insert(x, sorted))
  {
    if sorted != [] && !Newer(Key(x), Key(sorted[0])) {
      var a, tail := sorted[0], sorted[1..];
      TailSorted(sorted);
      InsertSorted(x, tail);
      InsertMembers(x, tail);
      HeadNewest(sorted);
      InsertBehind(x, sorted);
      SortedCons(a, Insert(x, tail));
    }
  }

  /** No entry after the head of a sorted list is newer than the head. */
  lemma HeadNewest(sorted: seq<VersionEntry>)
    requires SortedNewestFirst(sorted) && sorted != []
    ensures forall e :: e in sorted[1..] ==> !Newer(Key(e), Key(sorted[0]))
  {
    forall e | e in sorted[1..] ensures !Newer(Key(e), Key(sorted[0])) {
      var k :| 0 <= k < |sorted| - 1 && sorted[1..][k] == e;
      assert sorted[k + 1] == e;
    }
  }

  /** A sorted list stays sorted behind an entry no older than any of it. */
  lemma SortedCons(a: VersionEntry, rest: seq<VersionEntry>)
    requires SortedNewestFirst(rest)
    requires forall e :: e in rest ==> !Newer(Key(e), Key(a))
    ensures SortedNewestFirst([a] + rest)
  {
    var r := [a] + rest;
    forall i, j | 0 <= i < j < |r| ensures !Newer(Key(r[j]), Key(r[i])) {
      assert r[j] == rest[j - 1];
      if i > 0 {
        assert r[i] == rest[i - 1];
      } else {
        assert rest[j - 1] in rest;
      }
    }
  }

  /** The sorted list is newest first. */
  lemma {:induction false} SortSorted(entries: seq<VersionEntry>)
    ensures SortedNewestFirst(SortNewestFirst(entries))
  {
    if entries != [] {
      SortSorted(entries[..|entries| - 1]);
      InsertSorted(entries[|entries| - 1], SortNewestFirst(entries[..|entries| - 1]));
    }
  }

  /** The sorted list holds the same entries, each as often. */
  lemma {:induction false} SortPermutes(entries: seq<VersionEntry>)
    ensures multiset(SortNewestFirst(entries)) == multiset(entries)
  {
    if entries != [] {
      var init := entries[..|entries| - 1];
      var last := entries[|entries| - 1];
      SortPermutes(init);
      InsertPermutes(last, SortNewestFirst(init));
      MultisetOfSnoc(entries);
    }
  }

  /** The entries whose key is `v`, in order. */
  function WithKey(entries: seq<VersionEntry>, v: Version): seq<VersionEntry> {
    if entries == [] then []
    else WithKey(entries[..|entries| - 1], v) + (if Key(entries[|entries| - 1]) == v then [entries[|entries| - 1]] else [])
  }

  lemma {:induction false} WithKeyCons(e: VersionEntry, rest: seq<VersionEntry>, v: Version)
    ensures WithKey([e] + rest, v) == (if Key(e) == v then [e] else []) + WithKey(rest, v)
  {
    if rest != [] {
      ConsInit(e, rest);
      WithKeyCons(e, rest[..|rest| - 1], v);
    } else {
      assert [e] + rest == [e];
    }
  }

  /** No entry of a sorted list is as new as `x` once one is older than `x`. */
  lemma {:induction false} NoKeyAfterOlder(x: VersionEntry, sorted: seq<VersionEntry>)
    requires SortedNewestFirst(sorted)
    requires sorted != [] && Newer(Key(x), Key(sorted[0]))
    ensures WithKey(sorted, Key(x)) == []
  {
    if |sorted| > 1 {
      var init := sorted[..|sorted| - 1];
      assert SortedNewestFirst(init) by {
        forall i, j | 0 <= i < j < |init| ensures !Newer(Key(init[j]), Key(init[i])) {
          assert init[i] == sorted[i] && init[j] == sorted[j];
        }
      }
      assert init[0] == sorted[0];
      NoKeyAfterOlder(x, init);
      assert !Newer(Key(sorted[|sorted| - 1]), Key(sorted[0]));
    }
  }

  lemma TailSorted(sorted: seq<VersionEntry>)
    requires SortedNewestFirst(sorted) && sorted != []
    ensures SortedNewestFirst(sorted[1..])
  {
    var tail := sorted[1..];
    forall i, j | 0 <= i < j < |tail| ensures !Newer(Key(tail[j]), Key(tail[i])) {
      assert tail[i] == sorted[i + 1] && tail[j] == sorted[j + 1];
    }
  }

  /** Inserting at the front: the case where `x` is newer than every entry. */
  lemma InsertStableFront(x: VersionEntry, sorted: seq<VersionEntry>, v: Version)
    requires SortedNewestFirst(sorted)
    requires sorted != [] && Newer(Key(x), Key(sorted[0]))
    ensures WithKey([x] + sorted, v) == WithKey(sorted, v) + (if Key(x) == v then [x] else [])
  {
    WithKeyCons(x, sorted, v);
    if Key(x) == v {
      NoKeyAfterOlder(x, sorted);
    }
  }

  /** Inserting `x` puts it after every entry with the same key, and leaves the entries with other keys as they were. */
  lemma {:induction false} InsertStable(x: VersionEntry, sorted: seq<VersionEntry>, v: Version)
    requires SortedNewestFirst(sorted)
    ensures WithKey(Insert(x, sorted), v) == WithKey(sorted, v) + (if Key(x) == v then [x] else [])
  {
    if sorted == [] {
      assert Insert(x, sorted) == [] + [x];
    } else if Newer(Key(x), Key(sorted[0])) {
      InsertStableFront(x, sorted, v);
    } else {
      TailSorted(sorted);
      InsertStable(x, sorted[1..], v);
      InsertStableBehind(x, sorted, v);
    }
  }

  /** Inserting behind the first entry, given the property for the rest. */
  lemma InsertStableBehind(x: VersionEntry, sorted: seq<VersionEntry>, v: Version)
    requires sorted != [] && !Newer(Key(x), Key(sorted[0]))
    requires WithKey(Insert(x, sorted[1..]), v) == WithKey(sorted[1..], v) + (if Key(x) == v then [x] else [])
    ensures WithKey(Insert(x, sorted), v) == WithKey(sorted, v) + (if Key(x) == v then [x] else [])
  {
    var r := Insert(x, sorted);
    InsertBehind(x, sorted);
    WithKeyFirst(r, v);
    WithKeyFirst(sorted, v);
    var front: seq<VersionEntry> := if Key(sorted[0]) == v then [sorted[0]] else [];
    var back: seq<VersionEntry> := if Key(x) == v then [x] else [];
    AppendAssociates(front, WithKey(sorted[1..], v), back);
  }

  lemma MultisetOfSnoc<T>(s: seq<T>)
    requires s != []
    ensures multiset(s) == multiset(s[..|s| - 1]) + multiset{s[|s| - 1]}
  {
    assert s == s[..|s| - 1] + [s[|s| - 1]];
  }

  lemma ConsInit<T>(e: T, rest: seq<T>)
    requires rest != []
    ensures var all := [e] + rest;
            all[..|all| - 1] == [e] + rest[..|rest| - 1] && all[|all| - 1] == rest[|rest| - 1]
  {
  }

  /** An entry no newer than the first goes behind it. */
  lemma InsertBehind(x: VersionEntry, sorted: seq<VersionEntry>)
    requires sorted != [] && !Newer(Key(x), Key(sorted[0]))
    ensures var r := Insert(x, sorted);
            && r == [sorted[0]] + Insert(x, sorted[1..])
            && r != [] && r[0] == sorted[0] && r[1..] == Insert(x, sorted[1..])
  {
  }

  lemma WithKeyFirst(s: seq<VersionEntry>, v: Version)
    requires s != []
    ensures WithKey(s, v) == (if Key(s[0]) == v then [s[0]] else []) + WithKey(s[1..], v)
  {
    WithKeyCons(s[0], s[1..], v);
    assert s == [s[0]] + s[1..];
  }

  /** The sort is stable: entries with the same key keep their relative order. */
  lemma {:induction false} SortStable(entries: seq<VersionEntry>, v: Version)
    ensures WithKey(SortNewestFirst(entries), v) == WithKey(entries, v)
  {
    if entries != [] {
      var init := entries[..|entries| - 1];
      SortStable(init, v);
      SortSorted(init);
      InsertStable(entries[|entries| - 1], SortNewestFirst(init), v);
    }
  }

  /** `1.10.0` is newer than `1.9.0`: components compare as numbers, not as text. */
  lemma NumericNotTextual()
    ensures Key(NewEntry("1.10.0", "")) == Version(1, 10, 0)
    ensures Key(NewEntry("1.9.0", "")) == Version(1, 9, 0)
    ensures Newer(Version(1, 10, 0), Version(1, 9, 0))
  {
    ParseVersionText(Version(1, 10, 0));
    ParseVersionText(Version(1, 9, 0));
    assert VersionText(Version(1, 10, 0)) == "1.10.0" by {
      assert NatToString(10) == "10";
    }
    assert VersionText(Version(1, 9, 0)) == "1.9.0";
  }

  /** The list `updateGhPages` writes: the new entry first unless its version is listed, then sorted. */
  function UpdatedVersions(entries: seq<VersionEntry>, version: string, date: string): seq<VersionEntry> {
    SortNewestFirst(if HasVersion(entries, version) then entries else [NewEntry(version, date)] + entries)
  }

  /**
   * After the update the list is newest first, holds the earlier entries,
   * holds the released version, and has gained an entry only when that
   * version was not listed before.
   */
  lemma UpdatedVersionsSpec(entries: seq<VersionEntry>, version: string, date: string)
    ensures var r := UpdatedVersions(entries, version, date);
            && SortedNewestFirst(r)
            && HasVersion(r, version)
            && (HasVersion(entries, version) ==> multiset(r) == multiset(entries))
            && (!HasVersion(entries, version) ==> multiset(r) == multiset(entries) + multiset{NewEntry(version, date)})
  {
    var grown := if HasVersion(entries, version) then entries else [NewEntry(version, date)] + entries;
    SortSorted(grown);
    SortPermutes(grown);
    var r := UpdatedVersions(entries, version, date);
    var k :| 0 <= k < |grown| && grown[k].version == version;
    assert grown[k] in multiset(r);
    var j :| 0 <= j < |r| && r[j] == grown[k];
    assert multiset([NewEntry(version, date)] + entries) == multiset{NewEntry(version, date)} + multiset(entries);
  }

  /** The versions file being rewritten by `updateGhPages`. */
  class VersionsFile {
    var versions: seq<VersionEntry>

    constructor (versions: seq<VersionEntry>)
      ensures this.versions == versions
    {
      this.versions := versions;
    }

    /**
     * `versions.unshift(...)` when the version is not listed, then
     * `versions.sort(...)`. The comparator is only consistent on
     * well-formed versions, so the list and the version are required to be.
     */
    method AddRelease(version: string, date: string)
      requires WellFormed(versions) && ParseVersion(version).Some?
      modifies this
      ensures versions == UpdatedVersions(old(versions), version, date)
      ensures WellFormed(versions)
    {
      if !HasVersion(versions, version) {
        versions := [NewEntry(version, date)] + versions;
      }
      assert WellFormed(versions);
      ghost var before := versions;
      versions := SortNewestFirst(versions);
      SortPermutes(before);
      forall k | 0 <= k < |versions| ensures ParseVersion(versions[k].version).Some? {
        assert versions[k] in multiset(before);
        var i :| 0 <= i < |before| && before[i] == versions[k];
      }
    }
  }
}
