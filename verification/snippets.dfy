/** The snippet merge: every `.json` file of the snippet folder holds an
    object of named editor snippets; the files are folded, in directory
    order, into one object, which is then written out and its size reported.
    Files come in already listed and parsed. */
module Snippets {
  import opened Wrappers
  import opened Records

  /** A parsed JSON value. */
  datatype Json =
    | JNull
    | JBool(b: bool)
    | JNumber(n: real)
    | JString(s: string)
    | JArray(items: seq<Json>)
    | JObject(members: Entries<Json>)

  /** JavaScript truthiness: `null`, `false`, `0` and `""` are falsy; arrays
      and objects, even empty ones, are truthy. */
  predicate Truthy(v: Json) {
    match v
    case JNull => false
    case JBool(b) => b
    case JNumber(n) => n != 0.0
    case JString(s) => s != ""
    case JArray(_) => true
    case JObject(_) => true
  }

  /** One directory entry with its parsed content. */
  datatype SnippetFile = SnippetFile(name: string, entries: Entries<Json>)

  const JsonSuffix := ".json"

  /** `name.endsWith(".json")`, case-sensitive. */
  predicate IsJsonName(name: string) {
    |name| >= |JsonSuffix| && name[|name| - |JsonSuffix|..] == JsonSuffix
  }

  /** The entries that reach the fold, in processing order: those of the
      `.json` files, file after file. */
  function Contributing(files: seq<SnippetFile>): Entries<Json> {
    if |files| == 0 then []
    else
      var last := files[|files| - 1];
      Contributing(files[..|files| - 1]) + (if IsJsonName(last.name) then last.entries else [])
  }

  /** Every key defined by some entry. */
  function KeySet(es: Entries<Json>): set<string> {
    set i | 0 <= i < |es| :: es[i].0
  }

  /** The value of the last entry with key `k`. */
  function LastValue(es: Entries<Json>, k: string): Option<Json> {
    if |es| == 0 then None
    else if es[|es| - 1].0 == k then Some(es[|es| - 1].1)
    else LastValue(es[..|es| - 1], k)
  }

  /** `LastValue` finds nothing exactly for keys no entry defines, and
      otherwise the entry after which no entry redefines the key. */
  lemma {:induction false} LastValueSpec(es: Entries<Json>, k: string)
    ensures LastValue(es, k).None? <==> k !in KeySet(es)
    ensures LastValue(es, k).Some? ==>
      exists i :: 0 <= i < |es| && es[i] == (k, LastValue(es, k).value) && forall j :: i < j < |es| ==> es[j].0 != k
  {
    if |es| > 0 && es[|es| - 1].0 != k {
      var init := es[..|es| - 1];
      LastValueSpec(init, k);
      assert forall i :: 0 <= i < |init| ==> init[i] == es[i];
      assert KeySet(es) == KeySet(init) + {es[|es| - 1].0};
    }
  }

  /** Keys in order of first appearance. */
  function FirstSeen(ks: seq<string>): seq<string> {
    if |ks| == 0 then []
    else
      var init := FirstSeen(ks[..|ks| - 1]);
      if ks[|ks| - 1] in init then init else init + [ks[|ks| - 1]]
  }

  /** The warnings: an entry warns when an earlier entry gave its key a
      truthy value that is still in place. */
  function Warnings(es: Entries<Json>): seq<string> {
    if |es| == 0 then []
    else
      var init := es[..|es| - 1];
      var e := es[|es| - 1];
      Warnings(init) + (if WarnsOn(LastValue(init, e.0)) then [e.0] else [])
  }

  /** `if (allSnippets[key])` on what the key currently holds. */
  predicate WarnsOn(current: Option<Json>) {
    current.Some? && Truthy(current.value)
  }

  /** `snippets` and `warnings` are what folding the entries `done` gives. */
  ghost predicate Folded(snippets: Entries<Json>, warnings: seq<string>, done: Entries<Json>) {
    && Distinct(snippets)
    && (forall k :: Get(snippets, k) == LastValue(done, k))
    && Keys(snippets) == FirstSeen(Keys(done))
    && warnings == Warnings(done)
  }

  /** One assignment `allSnippets[key] = value`, with its warning check. */
  lemma FoldStep(snippets: Entries<Json>, warnings: seq<string>, done: Entries<Json>, key: string, value: Json)
    requires Folded(snippets, warnings, done)
    ensures Folded(Put(snippets, key, value), warnings + (if WarnsOn(Get(snippets, key)) then [key] else []), done + [(key, value)])
  {
    var done' := done + [(key, value)];
    assert done'[..|done'| - 1] == done;
    PutDistinct(snippets, key, value);
    FoldGets(snippets, done, key, value);
    FoldKeys(snippets, done, key, value);
  }

  lemma FoldGets(snippets: Entries<Json>, done: Entries<Json>, key: string, value: Json)
    requires forall k :: Get(snippets, k) == LastValue(done, k)
    ensures forall k :: Get(Put(snippets, key, value), k) == LastValue(done + [(key, value)], k)
  {
    var done' := done + [(key, value)];
    assert done'[..|done'| - 1] == done;
    PutGet(snippets, key, value);
  }

  lemma FoldKeys(snippets: Entries<Json>, done: Entries<Json>, key: string, value: Json)
    requires Keys(snippets) == FirstSeen(Keys(done))
    ensures Keys(Put(snippets, key, value)) == FirstSeen(Keys(done + [(key, value)]))
  {
    var done' := done + [(key, value)];
    var ks := Keys(done');
    assert ks[..|ks| - 1] == Keys(done) && ks[|ks| - 1] == key;
    PutKeys(snippets, key, value);
  }

  lemma PrefixStep(done: Entries<Json>, entries: Entries<Json>, j: int)
    requires 0 <= j < |entries|
    ensures done + entries[..j + 1] == (done + entries[..j]) + [(entries[j].0, entries[j].1)]
  {
    assert entries[..j + 1] == entries[..j] + [entries[j]];
  }

  /** Folds the entries of one file into the object. */
  method MergeFile(snippets: Entries<Json>, warnings: seq<string>, entries: Entries<Json>, ghost done: Entries<Json>)
    returns (snippets': Entries<Json>, warnings': seq<string>)
    requires Folded(snippets, warnings, done)
    ensures Folded(snippets', warnings', done + entries)
  {
    snippets', warnings' := snippets, warnings;
    assert done + entries[..0] == done;
    for j := 0 to |entries|
      invariant Folded(snippets', warnings', done + entries[..j])
    {
      var key, value := entries[j].0, entries[j].1;
      PrefixStep(done, entries, j);
      FoldStep(snippets', warnings', done + entries[..j], key, value);
      if WarnsOn(Get(snippets', key)) {
        warnings' := warnings' + [key];
      }
      snippets' := Put(snippets', key, value);
    }
    assert entries[..|entries|] == entries;
  }

  /** `loadAllSnippets`: later values replace earlier ones in place, new keys
      are appended, and a duplicate warning is logged for a key that already
      holds a truthy value. */
  method LoadAllSnippets(files: seq<SnippetFile>) returns (snippets: Entries<Json>, warnings: seq<string>)
    ensures Distinct(snippets)
    ensures forall k :: Get(snippets, k) == LastValue(Contributing(files), k)
    ensures Keys(snippets) == FirstSeen(Keys(Contributing(files)))
    ensures warnings == Warnings(Contributing(files))
  {
    snippets, warnings := [], [];
    assert files[..0] == [];
    for i := 0 to |files|
      invariant Folded(snippets, warnings, Contributing(files[..i]))
    {
      var file := files[i];
      assert files[..i + 1][..i] == files[..i];
      assert Contributing(files[..i + 1]) == Contributing(files[..i]) + (if IsJsonName(file.name) then file.entries else []);
      if IsJsonName(file.name) {
        snippets, warnings := MergeFile(snippets, warnings, file.entries, Contributing(files[..i]));
      } else {
        assert Contributing(files[..i]) + [] == Contributing(files[..i]);
      }
    }
    assert files[..|files|] == files;
  }

  /** A sequence without repeats has as many distinct elements as entries. */
  lemma {:induction false} DistinctCount(ks: seq<string>)
    requires forall i, j :: 0 <= i < j < |ks| ==> ks[i] != ks[j]
    ensures |set i | 0 <= i < |ks| :: ks[i]| == |ks|
  {
    if |ks| > 0 {
      var init := ks[..|ks| - 1];
      DistinctCount(init);
      var s := set i | 0 <= i < |ks| :: ks[i];
      var s' := set i | 0 <= i < |init| :: init[i];
      assert s == s' + {ks[|ks| - 1]};
      assert ks[|ks| - 1] !in s';
    }
  }

  /** `syncSnippets` up to writing the file: the count it reports is the
      number of distinct keys over all `.json` files. */
  method SyncSnippets(files: seq<SnippetFile>) returns (count: nat)
    ensures count == |KeySet(Contributing(files))|
  {
    var snippets, warnings := LoadAllSnippets(files);
    count := |Keys(snippets)|;
    var es := Contributing(files);
    var ks := Keys(snippets);
    assert forall i, j :: 0 <= i < j < |ks| ==> ks[i] != ks[j];
    DistinctCount(ks);
    forall k ensures k in KeySet(es) <==> k in ks {
      LastValueSpec(es, k);
    }
    assert (set i | 0 <= i < |ks| :: ks[i]) == KeySet(es);
  }

  /** The entries of concatenated file lists are concatenated. */
  lemma {:induction false} ContributingConcat(a: seq<SnippetFile>, b: seq<SnippetFile>)
    ensures Contributing(a + b) == Contributing(a) + Contributing(b)
  {
    if |b| > 0 {
      var b' := b[..|b| - 1];
      ContributingConcat(a, b');
      assert (a + b)[..|a + b| - 1] == a + b';
    } else {
      assert a + b == a;
    }
  }

  lemma SingleNonJson(f: SnippetFile)
    requires !IsJsonName(f.name)
    ensures Contributing([f]) == []
  {
    assert [f][..0] == [];
  }

  /** A file whose name does not end in `.json` changes nothing, wherever it
      is in the listing. */
  lemma NonJsonIgnored(a: seq<SnippetFile>, f: SnippetFile, b: seq<SnippetFile>)
    requires !IsJsonName(f.name)
    ensures Contributing(a + [f] + b) == Contributing(a + b)
  {
    ContributingConcat(a + [f], b);
    ContributingConcat(a, [f]);
    ContributingConcat(a, b);
    SingleNonJson(f);
    assert Contributing(a) + [] == Contributing(a);
  }

  /** The last value of a key in a concatenation comes from the second part
      when that part defines the key. */
  lemma {:induction false} LastValueConcat(a: Entries<Json>, b: Entries<Json>, k: string)
    ensures LastValue(a + b, k) == if k in KeySet(b) then LastValue(b, k) else LastValue(a, k)
  {
    LastValueSpec(b, k);
    if |b| > 0 {
      var b' := b[..|b| - 1];
      assert (a + b)[..|a + b| - 1] == a + b';
      LastValueConcat(a, b', k);
      assert forall i :: 0 <= i < |b'| ==> b'[i] == b[i];
      assert KeySet(b) == KeySet(b') + {b[|b| - 1].0};
      LastValueSpec(b', k);
    } else {
      assert a + b == a;
    }
  }

  /** A key defined by a later `.json` file takes that file's value,
      whatever earlier files said. */
  lemma LaterFileWins(files: seq<SnippetFile>, f: SnippetFile, k: string)
    requires IsJsonName(f.name) && k in KeySet(f.entries)
    ensures LastValue(Contributing(files + [f]), k) == LastValue(f.entries, k)
  {
    assert (files + [f])[..|files|] == files;
    LastValueConcat(Contributing(files), f.entries, k);
  }

  /** The key of entry `i` is warned about exactly when the key already held
      a truthy value. */
  ghost predicate WarnsAt(es: Entries<Json>, k: string, i: int) {
    0 <= i < |es| && es[i].0 == k && WarnsOn(LastValue(es[..i], k))
  }

  /** A warning names `k` exactly when some entry for `k` met a truthy
      value already stored under `k`. */
  lemma {:induction false} WarningIff(es: Entries<Json>, k: string)
    ensures k in Warnings(es) <==> exists i :: WarnsAt(es, k, i)
  {
    if |es| > 0 {
      var init := es[..|es| - 1];
      WarningIff(init, k);
      assert forall i :: 0 <= i < |init| ==> init[i] == es[i] && init[..i] == es[..i];
      if k in Warnings(init) {
        var i :| WarnsAt(init, k, i);
        assert WarnsAt(es, k, i);
      }
      assert es[..|init|] == init;
      if k in Warnings(es) && k !in Warnings(init) {
        assert WarnsAt(es, k, |init|);
      }
      if exists i :: WarnsAt(es, k, i) {
        var i :| WarnsAt(es, k, i);
        if i < |init| {
          assert WarnsAt(init, k, i);
        }
      }
    }
  }

  /** Overwriting a falsy value is silent; overwriting a truthy one warns. */
  lemma FalsyDuplicateSilent()
    ensures Warnings([("a", JString("")), ("a", JNumber(1.0))]) == []
    ensures Warnings([("a", JBool(true)), ("a", JNull)]) == ["a"]
  {
    var e1: Entries<Json> := [("a", JString(""))];
    assert [("a", JString("")), ("a", JNumber(1.0))][..1] == e1;
    var e2: Entries<Json> := [("a", JBool(true))];
    assert [("a", JBool(true)), ("a", JNull)][..1] == e2;
    assert e1[..0] == [] && e2[..0] == [];
  }
}
