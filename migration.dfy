/**
 * The one-off password migration of the taxi booking system
 * (taxi_booking_system/migrate_passwords.py): every stored line that has a
 * password field gets that field replaced by its SHA-256 hex digest unless
 * it already looks like one.  The digest itself is a parameter `hash`.
 */
module Migration {
  import opened Wrappers
  import Text
  import Models

  /** `hash_password`, SHA-256 as lower-case hex; not modelled. */
  type Hash = string -> string

  /** The characters a lower-cased digest is made of. */
  const HexDigits: string := "0123456789abcdef"

  /** `str.lower` on one character (ASCII letters). */
  function Lower(c: char): char
  {
    if 'A' <= c <= 'Z' then (c as int + 32) as char else c
  }

  predicate IsHex(c: char)
  {
    '0' <= c <= '9' || 'a' <= c <= 'f' || 'A' <= c <= 'F'
  }

  /** `is_password_hashed`: 64 characters, each a hexadecimal digit in either case. */
  function IsPasswordHashed(p: string): (r: bool)
    ensures r <==> |p| == 64 && forall i :: 0 <= i < |p| ==> IsHex(p[i])
  {
    LowerHex();
    |p| == 64 && forall i :: 0 <= i < |p| ==> Lower(p[i]) in HexDigits
  }

  /** A character lower-cases to a digest character exactly when it is a hex digit. */
  lemma LowerHex()
    ensures forall c :: Lower(c) in HexDigits <==> IsHex(c)
  {
    forall c
      ensures Lower(c) in HexDigits <==> IsHex(c)
    {
      var l := Lower(c);
      if '0' <= c <= '9' {
        assert HexDigits[c as int - '0' as int] == l;
      } else if 'a' <= l <= 'f' {
        assert HexDigits[l as int - 'a' as int + 10] == l;
      }
      if l in HexDigits {
        var k :| 0 <= k < |HexDigits| && HexDigits[k] == l;
        assert '0' <= l <= '9' || 'a' <= l <= 'f';
      }
    }
  }

  /** A digest holds no delimiter and starts and ends with a character that is not white space. */
  lemma HashedClean(p: string)
    requires IsPasswordHashed(p)
    ensures p != [] && '|' !in p && !Text.IsSpace(p[0]) && !Text.IsSpace(p[|p| - 1])
  {
  }

  /** The fields after the rewrite: field `index` hashed unless it already is, the others as they were. */
  function Rehash(parts: seq<string>, index: nat, hash: Hash): (r: seq<string>)
    requires index < |parts|
    ensures |r| == |parts|
    ensures forall i :: 0 <= i < |parts| && i != index ==> r[i] == parts[i]
    ensures IsPasswordHashed(parts[index]) ==> r == parts
    ensures !IsPasswordHashed(parts[index]) ==> r[index] == hash(parts[index])
  {
    if IsPasswordHashed(parts[index]) then parts else parts[index := hash(parts[index])]
  }

  /** What one line contributes: the lines appended for it and whether a password was hashed. */
  datatype Step = Step(out: seq<string>, hashed: bool)

  /**
   * One turn of the loop of `migrate_file`: a blank line is dropped, a line
   * with no field `index` is kept as it was read, any other line is
   * rejoined from its fields with field `index` rehashed.
   */
  function MigrateLine(line: string, index: nat, hash: Hash): (st: Step)
    ensures |st.out| <= 1
    ensures st.out == [] <==> Text.Strip(line) == []
    ensures Text.Strip(line) != [] && |Models.Parts(line)| <= index ==> st.out == [line]
    ensures st.hashed ==> |Models.Parts(line)| > index && !IsPasswordHashed(Models.Parts(line)[index])
  {
    if Text.Strip(line) == [] then Step([], false)
    else
      var parts := Models.Parts(line);
      if |parts| > index then
        Step([Text.Join(Rehash(parts, index, hash)) + "\n"], !IsPasswordHashed(parts[index]))
      else Step([line], false)
  }

  /** The line needs its password hashed. */
  predicate NeedsHash(line: string, index: nat)
  {
    Text.Strip(line) != [] && |Models.Parts(line)| > index && !IsPasswordHashed(Models.Parts(line)[index])
  }

  /** A line is counted exactly when it needs hashing. */
  lemma HashedMeans(line: string, index: nat, hash: Hash)
    ensures MigrateLine(line, index, hash).hashed <==> NeedsHash(line, index)
  {
  }

  /** The lines a loop appends when each line contributes `step(line).out`. */
  function Collect(lines: seq<string>, step: string -> Step): seq<string>
  {
    if lines == [] then [] else Collect(lines[..|lines| - 1], step) + step(lines[|lines| - 1]).out
  }

  /** How many lines such a loop counts. */
  function Count(lines: seq<string>, step: string -> Step): (n: nat)
    ensures n <= |lines|
  {
    if lines == [] then 0 else Count(lines[..|lines| - 1], step) + (if step(lines[|lines| - 1]).hashed then 1 else 0)
  }

  /** The turn of `migrate_file`'s loop for field `index`. */
  function Stepper(index: nat, hash: Hash): string -> Step
  {
    line => MigrateLine(line, index, hash)
  }

  /** The lines written back, in order. */
  function Migrated(lines: seq<string>, index: nat, hash: Hash): seq<string>
  {
    Collect(lines, Stepper(index, hash))
  }

  /** `migrated_count`: the number of passwords hashed. */
  function Hashed(lines: seq<string>, index: nat, hash: Hash): nat
  {
    Count(lines, Stepper(index, hash))
  }

  /** A loop that counts no line counts 0, and one that counts some line counts more. */
  lemma {:induction false} CountZero(lines: seq<string>, step: string -> Step)
    ensures Count(lines, step) == 0 <==> forall i :: 0 <= i < |lines| ==> !step(lines[i]).hashed
  {
    if lines != [] {
      var init := lines[..|lines| - 1];
      CountZero(init, step);
      assert forall i :: 0 <= i < |init| ==> init[i] == lines[i];
    }
  }

  /** The count is zero exactly when no line needs hashing. */
  lemma HashedZero(lines: seq<string>, index: nat, hash: Hash)
    ensures Hashed(lines, index, hash) == 0 <==> forall i :: 0 <= i < |lines| ==> !NeedsHash(lines[i], index)
  {
    var step := Stepper(index, hash);
    CountZero(lines, step);
    forall i | 0 <= i < |lines|
      ensures step(lines[i]).hashed <==> NeedsHash(lines[i], index)
    {
      HashedMeans(lines[i], index, hash);
    }
  }

  /**
   * When every line a step writes is written back unchanged and uncounted
   * by the same step, a second pass over the output changes nothing and
   * counts nothing.
   */
  lemma {:induction false} CollectIdempotent(lines: seq<string>, step: string -> Step)
    requires forall line, y :: y in step(line).out ==> step(y) == Step([y], false)
    requires forall line :: |step(line).out| <= 1
    ensures Collect(Collect(lines, step), step) == Collect(lines, step)
    ensures Count(Collect(lines, step), step) == 0
  {
    if lines != [] {
      var init := lines[..|lines| - 1];
      var a := Collect(init, step);
      var out := step(lines[|lines| - 1]).out;
      CollectIdempotent(init, step);
      if out != [] {
        var y := out[0];
        assert out == [y];
        assert (a + [y])[..|a|] == a;
      } else {
        assert a + out == a;
      }
    }
  }

  /** The loop of `migrate_file` over the lines read. */
  method MigrateLines(lines: seq<string>, index: nat, hash: Hash) returns (out: seq<string>, count: nat)
    ensures out == Migrated(lines, index, hash)
    ensures count == Hashed(lines, index, hash)
  {
    out := [];
    count := 0;
    for i := 0 to |lines|
      invariant out == Migrated(lines[..i], index, hash)
      invariant count == Hashed(lines[..i], index, hash)
    {
      assert lines[..i + 1][..i] == lines[..i];
      var line := lines[i];
      if Text.Strip(line) != [] {
        var parts := Models.Parts(line);
        if |parts| > index {
          var password := parts[index];
          if !IsPasswordHashed(password) {
            parts := parts[index := hash(password)];
            count := count + 1;
          }
          out := out + [Text.Join(parts) + "\n"];
        } else {
          out := out + [line];
        }
      }
    }
    assert lines[..|lines|] == lines;
  }

  /**
   * `migrate_file`: a missing file is left missing and counts 0; otherwise
   * the file is rewritten with the migrated lines.
   */
  method MigrateFile(file: Option<seq<string>>, index: nat, hash: Hash) returns (written: Option<seq<string>>, count: nat)
    ensures file.None? ==> written.None? && count == 0
    ensures file.Some? ==> written == Some(Migrated(file.value, index, hash)) && count == Hashed(file.value, index, hash)
  {
    if file.None? {
      return None, 0;
    }
    var lines;
    lines, count := MigrateLines(file.value, index, hash);
    written := Some(lines);
  }

  /** The password is field 2 of customers, drivers and administrators alike. */
  const PasswordIndex: nat := 2

  lemma PasswordFields(c: Models.Customer, d: Models.Driver, a: Models.Administrator)
    ensures c.Fields()[PasswordIndex] == c.password
    ensures d.Fields()[PasswordIndex] == d.password
    ensures a.Fields()[PasswordIndex] == a.password
  {
  }

  /** The migration of the three user files, with the total number of passwords hashed. */
  method MigrateAll(customers: Option<seq<string>>, drivers: Option<seq<string>>, admins: Option<seq<string>>, hash: Hash)
    returns (customers': Option<seq<string>>, drivers': Option<seq<string>>, admins': Option<seq<string>>, total: nat)
    ensures customers' == (if customers.Some? then Some(Migrated(customers.value, PasswordIndex, hash)) else None)
    ensures drivers' == (if drivers.Some? then Some(Migrated(drivers.value, PasswordIndex, hash)) else None)
    ensures admins' == (if admins.Some? then Some(Migrated(admins.value, PasswordIndex, hash)) else None)
    ensures total == (if customers.Some? then Hashed(customers.value, PasswordIndex, hash) else 0)
                     + (if drivers.Some? then Hashed(drivers.value, PasswordIndex, hash) else 0)
                     + (if admins.Some? then Hashed(admins.value, PasswordIndex, hash) else 0)
  {
    var n1, n2, n3;
    customers', n1 := MigrateFile(customers, PasswordIndex, hash);
    drivers', n2 := MigrateFile(drivers, PasswordIndex, hash);
    admins', n3 := MigrateFile(admins, PasswordIndex, hash);
    total := n1 + n2 + n3;
  }

  /** A digest function: every output is 64 hex characters, as SHA-256's `hexdigest` is. */
  ghost predicate HexDigest(hash: Hash)
  {
    forall p :: IsPasswordHashed(hash(p))
  }

  /** A join is at least as long as any of its pieces. */
  lemma {:induction false} JoinHolds(parts: seq<string>, k: int)
    requires 0 <= k < |parts|
    ensures |Text.Join(parts)| >= |parts[k]|
  {
    if |parts| > 1 && k > 0 {
      JoinHolds(parts[1..], k - 1);
    }
  }

  /** A written line reads back as the fields it was joined from. */
  lemma RereadJoin(fields: seq<string>)
    requires |fields| >= 1 && Text.NoPipes(fields) && Text.CleanEdges(fields) && Text.Join(fields) != []
    ensures Text.Strip(Text.Join(fields) + "\n") == Text.Join(fields)
    ensures Models.Parts(Text.Join(fields) + "\n") == fields
  {
    Text.JoinNoOuterSpace(fields);
    Text.StripNewline(Text.Join(fields));
    Text.SplitJoin(fields);
  }

  /** The rehashed fields of a line are clean again when the digest is. */
  lemma RehashClean(line: string, index: nat, hash: Hash)
    requires HexDigest(hash) && Text.Strip(line) != [] && |Models.Parts(line)| > index
    ensures var f := Rehash(Models.Parts(line), index, hash);
            Text.NoPipes(f) && Text.CleanEdges(f) && Text.Join(f) != [] && IsPasswordHashed(f[index])
  {
    var p := Models.Parts(line);
    var f := Rehash(p, index, hash);
    HashedClean(f[index]);
    JoinHolds(f, index);
    assert Text.NoPipes(f) by {
      forall i | 0 <= i < |f|
        ensures '|' !in f[i]
      {
        if i != index {
          assert f[i] == p[i];
        }
      }
    }
  }

  /**
   * Re-reading a rewritten line gives the line's fields with only field
   * `index` changed, to its digest when it was not one already.
   */
  lemma RewrittenFields(line: string, index: nat, hash: Hash)
    requires HexDigest(hash) && Text.Strip(line) != [] && |Models.Parts(line)| > index
    ensures var y := MigrateLine(line, index, hash).out[0];
            var p := Models.Parts(line);
            |Models.Parts(y)| == |p|
            && (forall i :: 0 <= i < |p| && i != index ==> Models.Parts(y)[i] == p[i])
            && Models.Parts(y)[index] == if IsPasswordHashed(p[index]) then p[index] else hash(p[index])
  {
    RehashClean(line, index, hash);
    RereadJoin(Rehash(Models.Parts(line), index, hash));
  }

  /** Every line a migration writes is written back unchanged, and counted 0, by a second one. */
  lemma LineIdempotent(line: string, index: nat, hash: Hash)
    requires HexDigest(hash)
    ensures forall y :: y in MigrateLine(line, index, hash).out ==> MigrateLine(y, index, hash) == Step([y], false)
  {
    if Text.Strip(line) != [] && |Models.Parts(line)| > index {
      var f := Rehash(Models.Parts(line), index, hash);
      RehashClean(line, index, hash);
      RereadJoin(f);
    }
  }

  /** Migrating a migrated file changes nothing and hashes no password. */
  lemma Idempotent(lines: seq<string>, index: nat, hash: Hash)
    requires HexDigest(hash)
    ensures Migrated(Migrated(lines, index, hash), index, hash) == Migrated(lines, index, hash)
    ensures Hashed(Migrated(lines, index, hash), index, hash) == 0
  {
    var step := Stepper(index, hash);
    forall line, y | y in step(line).out
      ensures step(y) == Step([y], false)
    {
      LineIdempotent(line, index, hash);
    }
    CollectIdempotent(lines, step);
  }

  /** A plain password is hashed; a digest, in either case, is not. */
  lemma HashedFixture()
    ensures !IsPasswordHashed("pass123")
    ensures IsPasswordHashed(Text.Zeros(60) + "ABcd")
  {
    var p := Text.Zeros(60) + "ABcd";
    assert forall i :: 0 <= i < 60 ==> p[i] == '0';
    assert p[60..] == "ABcd";
    assert forall i :: 60 <= i < 64 ==> p[i] == "ABcd"[i - 60];
  }
}
