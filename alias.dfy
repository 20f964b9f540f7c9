/**
 * The alias table and the three commands that change it: `alias create`,
 * `alias delete` and `alias edit`.
 *
 * Each command loads the table from the aliases file, may change it in place
 * and may write it back.  Here the loaded table is the `aliases` field of an
 * `AliasStore`, and each method reports whether the command would write the
 * table back; the file itself, its schema validation and the console output
 * are not modelled.
 */
module Alias {
  import opened Options
  import opened Text

  /** One alias: the command it stands for and an optional description. */
  datatype AliasEntry = AliasEntry(command: string, description: Option<string>)

  /** The record shape the aliases file is validated against: a non-empty command, a non-empty description when there is one. */
  predicate ValidEntry(e: AliasEntry) {
    |e.command| >= 1 && (e.description.Some? ==> |e.description.value| >= 1)
  }

  /** Every entry of the table has the validated shape. */
  predicate ValidTable(table: map<string, AliasEntry>) {
    forall name :: name in table ==> ValidEntry(table[name])
  }

  // -------------------------------------------------------------- delete

  /** The names listed on the command line, as a set. */
  function Listed(names: seq<string>): (s: set<string>)
    ensures forall n :: n in s <==> n in names
  {
    set n | n in names
  }

  /** The table with every listed name removed. */
  function Removed(table: map<string, AliasEntry>, names: seq<string>): (t: map<string, AliasEntry>)
    ensures t.Keys == table.Keys - Listed(names)
    ensures forall n :: n in t ==> t[n] == table[n]
  {
    table - Listed(names)
  }

  /** How many distinct listed names the table holds. */
  function PresentCount(table: map<string, AliasEntry>, names: seq<string>): (n: nat)
    ensures n <= |table.Keys|
  {
    var s := Listed(names) * table.Keys;
    assert s <= table.Keys;
    SubsetCard(s, table.Keys);
    |s|
  }

  lemma SubsetCard(a: set<string>, b: set<string>)
    requires a <= b
    ensures |a| <= |b|
  {
    if a != {} {
      var x :| x in a;
      SubsetCard(a - {x}, b - {x});
    }
  }

  /**
   * One more name in the list: it is removed too, and it adds one to the
   * count exactly when it is still in the table after the names before it,
   * that is when the table held it and it was not listed already.
   */
  lemma DeleteStep(table: map<string, AliasEntry>, names: seq<string>, n: string)
    ensures Removed(table, names + [n]) == Removed(table, names) - {n}
    ensures PresentCount(table, names + [n]) ==
              PresentCount(table, names) + (if n in Removed(table, names) then 1 else 0)
  {
    RemovedStep(table, names, n);
    CountStep(table, names, n);
  }

  /** Listing one more name lists exactly that name more. */
  lemma ListedSnoc(names: seq<string>, n: string)
    ensures Listed(names + [n]) == Listed(names) + {n}
  {
  }

  /** One more listed name removes that name more. */
  lemma RemovedStep(table: map<string, AliasEntry>, names: seq<string>, n: string)
    ensures Removed(table, names + [n]) == Removed(table, names) - {n}
  {
    ListedSnoc(names, n);
    var r, r' := Removed(table, names + [n]), Removed(table, names) - {n};
    assert r.Keys == r'.Keys;
    assert forall k :: k in r ==> r[k] == r'[k];
  }

  /** One more listed name counts once more exactly when it is still in the table. */
  lemma CountStep(table: map<string, AliasEntry>, names: seq<string>, n: string)
    ensures PresentCount(table, names + [n]) ==
              PresentCount(table, names) + (if n in Removed(table, names) then 1 else 0)
  {
    ListedSnoc(names, n);
    var before := Listed(names) * table.Keys;
    var after := Listed(names + [n]) * table.Keys;
    if n in Removed(table, names) {
      assert n in table && n !in before;
      assert after == before + {n};
    } else {
      assert after == before;
    }
  }

  /**
   * One iteration of the delete loop: from the table and the count after
   * the names before it, removing `name` when the table still holds it, and
   * counting it then, gives the table and the count after `name` too.
   */
  lemma DeleteOne(loaded: map<string, AliasEntry>, done: seq<string>, name: string,
                  current: map<string, AliasEntry>, count: nat)
    requires current == Removed(loaded, done) && count == PresentCount(loaded, done)
    ensures name in current ==>
      current - {name} == Removed(loaded, done + [name]) && count + 1 == PresentCount(loaded, done + [name])
    ensures name !in current ==>
      current == Removed(loaded, done + [name]) && count == PresentCount(loaded, done + [name])
  {
    DeleteStep(loaded, done, name);
    if name !in current {
      assert current - {name} == current;
    }
  }

  /** The first `i + 1` names are the first `i` and the next one. */
  lemma TakeOneMore(names: seq<string>, i: nat)
    requires i < |names|
    ensures names[..i + 1] == names[..i] + [names[i]]
  {
  }

  /** Deleting removes as many entries as it counts. */
  lemma RemovedSize(table: map<string, AliasEntry>, names: seq<string>)
    ensures |Removed(table, names)| == |table| - PresentCount(table, names)
  {
    var keys, listed := table.Keys, Listed(names);
    assert keys == (keys - listed) + (listed * keys);
    assert (keys - listed) * (listed * keys) == {};
    assert |Removed(table, names)| == |Removed(table, names).Keys|;
  }

  /** A name listed twice is counted once. */
  lemma RepeatCountsOnce(table: map<string, AliasEntry>, names: seq<string>, n: string)
    requires n in names
    ensures PresentCount(table, names + [n]) == PresentCount(table, names)
    ensures Removed(table, names + [n]) == Removed(table, names)
  {
    DeleteStep(table, names, n);
  }

  /** Entries not listed are kept as they were; listed entries are gone. */
  lemma RemovedKeepsOthers(table: map<string, AliasEntry>, names: seq<string>, n: string)
    ensures n in names ==> n !in Removed(table, names)
    ensures n !in names && n in table ==> n in Removed(table, names) && Removed(table, names)[n] == table[n]
  {
  }

  /** Deleting keeps the table's shape valid. */
  lemma RemovedKeepsValid(table: map<string, AliasEntry>, names: seq<string>)
    requires ValidTable(table)
    ensures ValidTable(Removed(table, names))
  {
  }

  /** `Deleted <n> alias<es>.`: the message after deleting by name. */
  function DeletedMessage(n: nat): string {
    "Deleted " + NatToString(n) + " alias" + (if n != 1 then "es" else "") + "."
  }

  /** The message is singular exactly for one deletion, and its numeral reads back as the count. */
  lemma DeletedMessageShape(n: nat)
    ensures var m := DeletedMessage(n);
      && |m| >= 15
      && (m[|m| - 7..] == " alias." <==> n == 1)
      && m[8..|m| - (if n == 1 then 7 else 9)] == NatToString(n)
      && DigitsValue(m[8..|m| - (if n == 1 then 7 else 9)]) == n
  {
    NatToStringValue(n);
    if n == 1 {
      SingularShape(NatToString(n));
    } else {
      PluralShape(NatToString(n));
    }
  }

  /** The singular message around a numeral `d`. */
  lemma SingularShape(d: string)
    ensures var m := "Deleted " + d + " alias" + "" + ".";
      |m| == |d| + 15 && m[|m| - 7..] == " alias." && m[8..|m| - 7] == d
  {
    var m := "Deleted " + d + " alias" + "" + ".";
    assert m == "Deleted " + d + " alias.";
  }

  /** The plural message around a numeral `d`. */
  lemma PluralShape(d: string)
    ensures var m := "Deleted " + d + " alias" + "es" + ".";
      |m| == |d| + 17 && m[|m| - 7..] != " alias." && m[8..|m| - 9] == d
  {
    var m := "Deleted " + d + " alias" + "es" + ".";
    assert m == "Deleted " + d + " aliases.";
    assert m[|m| - 7..][0] == 'l';
  }

  /** `Deleted 1 alias.` and `Deleted 0 aliases.` */
  lemma DeletedMessageExamples()
    ensures DeletedMessage(1) == "Deleted 1 alias."
    ensures DeletedMessage(0) == "Deleted 0 aliases."
  {
    assert NatToString(1) == "1" && NatToString(0) == "0";
  }

  /**
   * Deleting `a a c` from a table holding `a` and `b` removes `a` only and
   * counts it once: the second `a` is already gone and `c` was never there.
   */
  lemma DeleteRepeatedExample(e: AliasEntry)
    ensures Removed(map["a" := e, "b" := e], ["a", "a", "c"]) == map["b" := e]
    ensures PresentCount(map["a" := e, "b" := e], ["a", "a", "c"]) == 1
  {
    var t := map["a" := e, "b" := e];
    assert Listed(["a", "a", "c"]) == {"a", "c"};
    assert Listed(["a", "a", "c"]) * t.Keys == {"a"};
  }

  /** The three ways `alias delete` can end. */
  datatype DeleteOutcome =
    | DeletedAll           // `--all`: the table emptied
    | NothingGiven         // no names and no `--all`: nothing done
    | Deleted(count: nat)  // names given: this many entries removed

  /** Creating a valid entry under a new name keeps the table valid. */
  lemma CreateKeepsValid(table: map<string, AliasEntry>, name: string, e: AliasEntry)
    requires ValidTable(table) && ValidEntry(e)
    ensures ValidTable(table[name := e])
  {
  }

  // -------------------------------------------------------------- edit

  /** The prompt's answer to `alias edit`: the fields it carries override the entry's. */
  datatype EditAnswer = EditAnswer(command: Option<string>, description: Option<string>)

  /** `{ ...entry, ...answer }`: each field the answer carries replaces the entry's. */
  function Merge(e: AliasEntry, a: EditAnswer): AliasEntry {
    AliasEntry(a.command.GetOr(e.command), if a.description.Some? then a.description else e.description)
  }

  /** An answer without fields keeps the entry; an answer with both fields is the new entry whatever the old one was. */
  lemma MergeOverrides(e: AliasEntry, c: string, d: string)
    ensures Merge(e, EditAnswer(None, None)) == e
    ensures Merge(e, EditAnswer(Some(c), Some(d))) == AliasEntry(c, Some(d))
  {
  }

  /** Merging the same answer twice is merging it once. */
  lemma MergeIdempotent(e: AliasEntry, a: EditAnswer)
    ensures Merge(Merge(e, a), a) == Merge(e, a)
  {
  }

  /** Answering the prompts with the entry's own values (the prompts' defaults) keeps the entry, with or without a description. */
  lemma MergeDefaultsKeepsEntry(e: AliasEntry)
    ensures Merge(e, EditAnswer(Some(e.command), e.description)) == e
  {
  }

  /** A merge with non-empty answered fields keeps a valid entry valid. */
  lemma MergeKeepsValid(e: AliasEntry, a: EditAnswer)
    requires ValidEntry(e)
    requires a.command.Some? ==> |a.command.value| >= 1
    requires a.description.Some? ==> |a.description.value| >= 1
    ensures ValidEntry(Merge(e, a))
  {
  }

  /**
   * As written, editing an alias that has no description and leaving the
   * description prompt empty stores an empty description, which the file's
   * schema rejects: the table written is no longer valid.
   */
  lemma EmptyDescriptionBreaksTable(table: map<string, AliasEntry>, name: string)
    requires ValidTable(table) && name in table && table[name].description.None?
    ensures !ValidTable(table[name := Merge(table[name], EditAnswer(Some(table[name].command), Some("")))])
  {
    var t := table[name := Merge(table[name], EditAnswer(Some(table[name].command), Some("")))];
    assert !ValidEntry(t[name]);
  }

  /** The merge with an empty answer read as no answer: an empty field keeps the entry's. */
  function MergeKeepingSchema(e: AliasEntry, a: EditAnswer): AliasEntry {
    Merge(e, EditAnswer(if a.command == Some("") then None else a.command,
                        if a.description == Some("") then None else a.description))
  }

  /** The corrected merge keeps every valid entry valid, whatever is answered, and agrees with the merge on non-empty answers. */
  lemma MergeKeepingSchemaKeepsValid(e: AliasEntry, a: EditAnswer)
    requires ValidEntry(e)
    ensures ValidEntry(MergeKeepingSchema(e, a))
    ensures ((a.command.Some? ==> a.command.value != "") && (a.description.Some? ==> a.description.value != ""))
              ==> MergeKeepingSchema(e, a) == Merge(e, a)
  {
  }

  // -------------------------------------------------------------- the table

  /** The alias table, as loaded from the aliases file. */
  class AliasStore {
    var aliases: map<string, AliasEntry>

    constructor(loaded: map<string, AliasEntry>)
      ensures aliases == loaded
    {
      aliases := loaded;
    }

    /**
     * `alias create <name> <command> [description]`: an existing name is
     * refused and nothing is written; a new name is added and the table
     * written.
     */
    method Create(name: string, command: string, description: Option<string>) returns (wrote: bool)
      modifies this
      ensures wrote <==> name !in old(aliases)
      ensures wrote ==> aliases == old(aliases)[name := AliasEntry(command, description)]
      ensures !wrote ==> aliases == old(aliases)
    {
      if name in aliases {
        return false;
      }
      aliases := aliases[name := AliasEntry(command, description)];
      return true;
    }

    /**
     * `alias delete [names...] [--all]`: with `--all` the table is emptied;
     * with no names nothing is done; otherwise each listed name still in the
     * table is removed and counted, absent names are skipped, and the table
     * is written even when nothing was removed.
     */
    method Delete(names: seq<string>, all: bool) returns (outcome: DeleteOutcome, wrote: bool)
      modifies this
      ensures wrote <==> (all || names != [])
      ensures all ==> outcome == DeletedAll && aliases == map[]
      ensures !all && names == [] ==> outcome == NothingGiven && aliases == old(aliases)
      ensures !all && names != [] ==>
                outcome == Deleted(PresentCount(old(aliases), names)) && aliases == Removed(old(aliases), names)
    {
      if all {
        aliases := map[];
        return DeletedAll, true;
      }
      if |names| == 0 {
        return NothingGiven, false;
      }
      var deletedCount := RemoveEach(names);
      return Deleted(deletedCount), true;
    }

    /** The loop of `alias delete`: each listed name still in the table is removed and counted. */
    method RemoveEach(names: seq<string>) returns (deletedCount: nat)
      modifies this
      ensures aliases == Removed(old(aliases), names)
      ensures deletedCount == PresentCount(old(aliases), names)
    {
      ghost var loaded := aliases;
      ghost var done: seq<string> := [];
      deletedCount := 0;
      var i := 0;
      while i < |names|
        invariant 0 <= i <= |names| && done == names[..i]
        invariant aliases == Removed(loaded, done)
        invariant deletedCount == PresentCount(loaded, done)
      {
        var name := names[i];
        DeleteOne(loaded, done, name, aliases, deletedCount);
        if name in aliases {
          aliases := aliases - {name};
          deletedCount := deletedCount + 1;
        }
        TakeOneMore(names, i);
        done := done + [name];
        i := i + 1;
      }
      assert done == names;
    }

    /**
     * `alias edit <name>`: an absent name is refused and nothing is written;
     * a present entry is replaced by itself overridden with the answer, and
     * the table written.
     */
    method Edit(name: string, answer: EditAnswer) returns (wrote: bool)
      modifies this
      ensures wrote <==> name in old(aliases)
      ensures wrote ==> aliases == old(aliases)[name := Merge(old(aliases)[name], answer)]
      ensures !wrote ==> aliases == old(aliases)
    {
      if name !in aliases {
        return false;
      }
      aliases := aliases[name := Merge(aliases[name], answer)];
      return true;
    }
  }
}
