/** The `name=value;name=value` keys of the cache and the reports: `key_fields` in
    `tools/install_autotune_cache.py` against the join the writers use. */
module KeyFields {

  function IndexOf(s: string, c: char): (i: nat)
    ensures i <= |s| && (i < |s| ==> s[i] == c) && c !in s[..i]
    ensures i == |s| <==> c !in s
  {
    if s == "" then 0
    else if s[0] == c then 0
    else
      var i := 1 + IndexOf(s[1..], c);
      assert s[..i] == [s[0]] + s[1..][..i - 1];
      i
  }

  /** Python's `split` on one character: always at least one part. */
  function Split(s: string, c: char): (parts: seq<string>)
    ensures |parts| >= 1
    decreases |s|
  {
    var i := IndexOf(s, c);
    if i == |s| then [s] else [s[..i]] + Split(s[i + 1..], c)
  }

  function Join(parts: seq<string>, c: char): string
  {
    if |parts| == 0 then "" else if |parts| == 1 then parts[0] else parts[0] + [c] + Join(parts[1..], c)
  }

  lemma {:induction false} IndexUnique(s: string, c: char, i: nat)
    requires i < |s| && s[i] == c && c !in s[..i]
    ensures IndexOf(s, c) == i
  {
    if i > 0 {
      assert s[0] in s[..i];
      assert s[1..][..i - 1] == s[..i][1..];
      IndexUnique(s[1..], c, i - 1);
    }
  }

  lemma IndexAfterPrefix(a: string, b: string, c: char)
    requires c !in a
    ensures IndexOf(a + [c] + b, c) == |a|
  {
    assert (a + [c] + b)[..|a|] == a;
    IndexUnique(a + [c] + b, c, |a|);
  }

  /** A part in front of a separator is the first part of the split. */
  lemma SplitHead(a: string, rest: string, c: char)
    requires c !in a
    ensures Split(a + [c] + rest, c) == [a] + Split(rest, c)
  {
    var s := a + [c] + rest;
    IndexAfterPrefix(a, rest, c);
    assert s[..|a|] == a && s[|a| + 1..] == rest;
  }

  /** Splitting a join gives back the parts, if no part contains the separator. */
  lemma {:induction false} SplitJoin(parts: seq<string>, c: char)
    requires |parts| >= 1 && forall i :: 0 <= i < |parts| ==> c !in parts[i]
    ensures Split(Join(parts, c), c) == parts
  {
    if |parts| == 1 {
      assert IndexOf(parts[0], c) == |parts[0]|;
    } else {
      SplitJoin(parts[1..], c);
      SplitHead(parts[0], Join(parts[1..], c), c);
      assert Join(parts, c) == parts[0] + [c] + Join(parts[1..], c);
    }
  }

  datatype Field = Field(name: string, value: string)

  /** How the report tools print one field. */
  function Print(f: Field): string { f.name + "=" + f.value }

  function Printed(fields: seq<Field>): (parts: seq<string>)
    ensures |parts| == |fields| && forall i :: 0 <= i < |fields| ==> parts[i] == Print(fields[i])
  {
    seq(|fields|, i requires 0 <= i < |fields| => Print(fields[i]))
  }

  function PrintKey(fields: seq<Field>): string { Join(Printed(fields), ';') }

  /** The field a part parses to, if it has a name before its first `=`. */
  function ParsePart(part: string): (fs: seq<Field>)
    ensures |fs| <= 1
  {
    var i := IndexOf(part, '=');
    if part == "" || i == |part| || i == 0 then [] else [Field(part[..i], part[i + 1..])]
  }

  /** What each part parses to: one field or none. */
  function ParseParts(parts: seq<string>): (found: seq<seq<Field>>)
    ensures |found| == |parts| && forall i :: 0 <= i < |parts| ==> found[i] == ParsePart(parts[i])
  {
    seq(|parts|, i requires 0 <= i < |parts| => ParsePart(parts[i]))
  }

  /** The fields the first `n` parts leave in the dictionary; a later part overrides an earlier one. */
  function Collected(found: seq<seq<Field>>, n: nat): map<string, string>
    requires n <= |found|
  {
    if n == 0 then map[]
    else
      var before, fs := Collected(found, n - 1), found[n - 1];
      if fs == [] then before else before[fs[0].name := fs[0].value]
  }

  /** `key_fields`: for each name, the value of the last part that has it. */
  method ParseKeyFields(key: string) returns (fields: map<string, string>)
    ensures fields == ParsedKey(key)
  {
    fields := map[];
    var parts := Split(key, ';');
    for n := 0 to |parts|
      invariant fields == Collected(ParseParts(parts), n)
    {
      fields := AddPart(fields, parts[n]);
    }
  }

  /** The body of the loop: a part without `=` or without a name before it adds nothing. */
  method AddPart(before: map<string, string>, part: string) returns (fields: map<string, string>)
    ensures fields == if ParsePart(part) == [] then before
                      else before[ParsePart(part)[0].name := ParsePart(part)[0].value]
  {
    fields := before;
    var at := IndexOf(part, '=');
    if part == "" || at == |part| {
      return;
    }
    var name, value := part[..at], part[at + 1..];
    if name != "" {
      fields := fields[name := value];
    }
  }

  function ParsedKey(key: string): map<string, string>
  {
    Collected(ParseParts(Split(key, ';')), |Split(key, ';')|)
  }

  /** Names are nonempty and free of both separators; values may contain `=` but not `;`. */
  predicate Printable(f: Field) { f.name != "" && '=' !in f.name && ';' !in f.name && ';' !in f.value }

  lemma ParsePrinted(f: Field)
    requires Printable(f)
    ensures ParsePart(Print(f)) == [f] && ';' !in Print(f)
  {
    assert Print(f) == f.name + ['='] + f.value;
    IndexAfterPrefix(f.name, f.value, '=');
    assert Print(f)[..|f.name|] == f.name && Print(f)[|f.name| + 1..] == f.value;
  }

  /** Part `i` of the first `n` is the last one to give this field's name a value, and it gives this one. */
  ghost predicate LastFor(found: seq<seq<Field>>, n: nat, i: nat, field: Field)
    requires n <= |found|
  {
    && i < n && found[i] == [field]
    && forall j :: i < j < n ==> !Names(found, j, field)
  }

  ghost predicate HasLast(found: seq<seq<Field>>, n: nat, field: Field)
    requires n <= |found|
  {
    exists i: nat :: LastFor(found, n, i, field)
  }

  /** Part `n` gives this field's name a value. */
  predicate Names(found: seq<seq<Field>>, n: nat, field: Field)
    requires n < |found|
  {
    found[n] != [] && found[n][0].name == field.name
  }

  ghost predicate Binds(m: map<string, string>, field: Field) { field.name in m && m[field.name] == field.value }

  /** The dictionary holds a field exactly when some part is the last to name it: the last part wins. */
  lemma {:induction false} LastPartWins(found: seq<seq<Field>>, n: nat, field: Field)
    requires n <= |found| && forall i :: 0 <= i < |found| ==> |found[i]| <= 1
    ensures Binds(Collected(found, n), field) <==> HasLast(found, n, field)
  {
    if n > 0 {
      LastPartWins(found, n - 1, field);
      LastStep(found, n - 1, field);
    }
  }

  /** The newest part decides when it names the field, and otherwise decides nothing. */
  lemma LastStep(found: seq<seq<Field>>, n: nat, field: Field)
    requires n < |found| && |found[n]| <= 1
    ensures HasLast(found, n + 1, field) <==>
      if Names(found, n, field) then found[n] == [field] else HasLast(found, n, field)
  {
    if found[n] == [field] {
      assert LastFor(found, n + 1, n, field);
    }
    if !Names(found, n, field) {
      if i: nat :| LastFor(found, n, i, field) {
        assert LastFor(found, n + 1, i, field);
      }
      if HasLast(found, n + 1, field) {
        var next := n + 1;
        var i: nat :| LastFor(found, next, i, field);
        assert LastFor(found, n, i, field);
      }
    }
  }

  /** What `key_fields` returns for any key, repeated names included. */
  lemma LastFieldWins(key: string, field: Field)
    ensures var found := ParseParts(Split(key, ';'));
      Binds(ParsedKey(key), field) <==> HasLast(found, |found|, field)
  {
    var found := ParseParts(Split(key, ';'));
    LastPartWins(found, |found|, field);
  }

  ghost predicate DistinctNames(fields: seq<Field>)
  {
    forall i, j :: 0 <= i < j < |fields| ==> fields[i].name != fields[j].name
  }

  /** Exactly these fields. */
  ghost predicate Exactly(m: map<string, string>, fields: seq<Field>)
  {
    forall field :: Binds(m, field) <==> field in fields
  }

  /** Parts that parse to fields with distinct names are each the last to name their field. */
  lemma DistinctPartsAreLast(found: seq<seq<Field>>, fields: seq<Field>, field: Field)
    requires |fields| == |found| && (forall i :: 0 <= i < |fields| ==> found[i] == [fields[i]]) && DistinctNames(fields)
    ensures HasLast(found, |found|, field) <==> field in fields
  {
    if field in fields {
      var i :| 0 <= i < |fields| && fields[i] == field;
      assert LastFor(found, |found|, i, field);
    }
    if i: nat :| LastFor(found, |found|, i, field) {
      assert fields[i] == field;
    }
  }

  lemma PrintedSplits(fields: seq<Field>)
    requires |fields| >= 1 && forall i :: 0 <= i < |fields| ==> Printable(fields[i])
    ensures PrintKey(fields) != "" && Split(PrintKey(fields), ';') == Printed(fields)
  {
    forall i | 0 <= i < |fields|
      ensures ';' !in Printed(fields)[i]
    {
      ParsePrinted(fields[i]);
    }
    SplitJoin(Printed(fields), ';');
  }

  /** Round trip: parsing a printed key returns exactly its fields. */
  lemma KeyRoundTrip(fields: seq<Field>)
    requires DistinctNames(fields) && forall i :: 0 <= i < |fields| ==> Printable(fields[i])
    ensures Exactly(ParsedKey(PrintKey(fields)), fields)
  {
    if |fields| == 0 {
      assert Split("", ';') == [""];
      assert Collected(ParseParts([""]), 1) == map[];
    } else {
      PrintedSplits(fields);
      var found := ParseParts(Printed(fields));
      forall i | 0 <= i < |fields|
        ensures found[i] == [fields[i]]
      {
        ParsePrinted(fields[i]);
      }
      forall field
        ensures Binds(Collected(found, |found|), field) <==> field in fields
      {
        LastPartWins(found, |found|, field);
        DistinctPartsAreLast(found, fields, field);
      }
    }
  }

  /** Printing is injective: the key determines the list of fields, order included; only the empty list prints
      nothing. */
  lemma PrintKeyInjective(f: seq<Field>, g: seq<Field>)
    requires PrintKey(f) == PrintKey(g)
    requires (forall i :: 0 <= i < |f| ==> Printable(f[i])) && (forall i :: 0 <= i < |g| ==> Printable(g[i]))
    ensures f == g
  {
    if |f| >= 1 {
      PrintedSplits(f);
    }
    if |g| >= 1 {
      PrintedSplits(g);
    }
    forall i | 0 <= i < |f|
      ensures f[i] == g[i]
    {
      ParsePrinted(f[i]);
      ParsePrinted(g[i]);
      assert Printed(f)[i] == Printed(g)[i];
    }
  }
}
