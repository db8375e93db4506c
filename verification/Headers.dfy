/** The header list of requests and responses: insertion-ordered, names compared without case. */
module Headers {
  import opened Strings

  type Fields = seq<(string, string)>

  function Lower(s: string): (r: string)
    ensures |r| == |s|
  {
    seq(|s|, i requires 0 <= i < |s| => ToLower(s[i]))
  }

  predicate SameName(a: string, b: string) {
    Lower(a) == Lower(b)
  }

  /** The comparison as the code makes it, character by character. */
  method CompareNames(a: string, b: string) returns (match_: bool)
    ensures match_ == SameName(a, b)
  {
    assert |a| == |b| ==> (SameName(a, b) <==> forall i :: 0 <= i < |a| ==> Lower(a)[i] == Lower(b)[i]);
    if |a| != |b| {
      assert |Lower(a)| != |Lower(b)|;
      return false;
    }
    for i := 0 to |b|
      invariant forall j :: 0 <= j < i ==> Lower(a)[j] == Lower(b)[j]
    {
      if ToLower(a[i]) != ToLower(b[i]) {
        assert Lower(a)[i] != Lower(b)[i];
        return false;
      }
    }
    return true;
  }

  /** The value of the first field with this name; empty if there is none. */
  function Get(fields: Fields, name: string): string {
    if fields == [] then ""
    else if SameName(fields[0].0, name) then fields[0].1
    else Get(fields[1..], name)
  }

  predicate Has(fields: Fields, name: string) {
    exists f <- fields :: SameName(f.0, name)
  }

  /** Replaces the value of the first field with this name, or adds a field at the end. */
  function Put(fields: Fields, name: string, value: string): Fields {
    if fields == [] then [(name, value)]
    else if SameName(fields[0].0, name) then [(fields[0].0, value)] + fields[1..]
    else [fields[0]] + Put(fields[1..], name, value)
  }

  method Lookup(fields: Fields, name: string) returns (value: string)
    ensures value == Get(fields, name)
  {
    assert fields[0..] == fields;
    for k := 0 to |fields|
      invariant Get(fields[k..], name) == Get(fields, name)
    {
      assert fields[k..][1..] == fields[k + 1..];
      var same := CompareNames(fields[k].0, name);
      if same { return fields[k].1; }
    }
    return "";
  }

  method Store(fields: Fields, name: string, value: string) returns (fields': Fields)
    ensures fields' == Put(fields, name, value)
  {
    assert fields[0..] == fields;
    for k := 0 to |fields|
      invariant fields[..k] + Put(fields[k..], name, value) == Put(fields, name, value)
    {
      PutStep(fields, k, name, value);
      var same := CompareNames(fields[k].0, name);
      if same { return fields[k := (fields[k].0, value)]; }
    }
    return fields + [(name, value)];
  }

  lemma PutStep(fields: Fields, k: nat, name: string, value: string)
    requires k < |fields|
    ensures SameName(fields[k].0, name) ==>
              fields[..k] + Put(fields[k..], name, value) == fields[k := (fields[k].0, value)]
    ensures !SameName(fields[k].0, name) ==>
              fields[..k] + Put(fields[k..], name, value) == fields[..k + 1] + Put(fields[k + 1..], name, value)
  {
    assert fields[k..][1..] == fields[k + 1..];
  }

  // ---- a case-insensitive map that remembers its order ----

  ghost function Names(fields: Fields): seq<string> {
    seq(|fields|, i requires 0 <= i < |fields| => Lower(fields[i].0))
  }

  /** No two fields have the same name up to case. */
  ghost predicate OneEach(fields: Fields) {
    forall i, j :: 0 <= i < j < |fields| ==> !SameName(fields[i].0, fields[j].0)
  }

  /** What is stored is found again under every spelling of its name, and nothing else changes. */
  lemma {:induction false} GetAfterPut(fields: Fields, name: string, value: string, other: string)
    ensures Get(Put(fields, name, value), other) == if SameName(name, other) then value else Get(fields, other)
    ensures Has(Put(fields, name, value), name)
  {
    if fields != [] && !SameName(fields[0].0, name) {
      GetAfterPut(fields[1..], name, value, other);
      assert Put(fields, name, value)[1..] == Put(fields[1..], name, value);
      var f :| f in Put(fields[1..], name, value) && SameName(f.0, name);
      assert f in Put(fields, name, value);
    } else {
      assert SameName(Put(fields, name, value)[0].0, name);
    }
  }

  lemma NamesCons(f: (string, string), rest: Fields)
    ensures Names([f] + rest) == [Lower(f.0)] + Names(rest)
  {
  }

  lemma HasCons(f: (string, string), rest: Fields, name: string)
    ensures Has([f] + rest, name) <==> SameName(f.0, name) || Has(rest, name)
  {
  }

  /** Storing keeps the order and the spelling of the names there are; a new name comes last. So a
      list built by storing never holds a name twice. */
  lemma {:induction false} NamesAfterPut(fields: Fields, name: string, value: string)
    ensures Names(Put(fields, name, value))
            == if Has(fields, name) then Names(fields) else Names(fields) + [Lower(name)]
    ensures |Put(fields, name, value)| == |fields| + if Has(fields, name) then 0 else 1
    ensures forall i :: 0 <= i < |fields| ==> Put(fields, name, value)[i].0 == fields[i].0
  {
    hide Names, Has, SameName;
    if fields == [] {
      PutFirst(name, value);
    } else {
      var rest := fields[1..];
      assert fields == [fields[0]] + rest;
      NamesCons(fields[0], rest);
      HasCons(fields[0], rest, name);
      if SameName(fields[0].0, name) {
        NamesCons((fields[0].0, value), rest);
      } else {
        NamesAfterPut(rest, name, value);
        NamesCons(fields[0], Put(rest, name, value));
      }
    }
  }

  lemma PutFirst(name: string, value: string)
    ensures !Has([], name) && Names(Put([], name, value)) == Names([]) + [Lower(name)]
  {
  }

  lemma PutKeepsOneEach(fields: Fields, name: string, value: string)
    requires OneEach(fields)
    ensures OneEach(Put(fields, name, value))
  {
    NamesAfterPut(fields, name, value);
    var put := Put(fields, name, value);
    assert forall i :: 0 <= i < |put| ==> Names(put)[i] == Lower(put[i].0);
    assert forall i :: 0 <= i < |fields| ==> Names(fields)[i] == Lower(fields[i].0);
    if !Has(fields, name) {
      forall i | 0 <= i < |fields|
        ensures !SameName(fields[i].0, name)
      {
        assert fields[i] in fields;
      }
    }
  }

  /** Storing adds no name but its own, and keeps what holds of all fields. */
  lemma {:induction false} PutKeeps(fields: Fields, name: string, value: string, other: string)
    ensures Has(Put(fields, name, value), other) ==> SameName(name, other) || Has(fields, other)
    ensures forall f <- Put(fields, name, value) ::
              f == (name, value) || f in fields || exists g <- fields :: f == (g.0, value)
  {
    hide SameName;
    if fields != [] {
      assert fields == [fields[0]] + fields[1..];
      HasCons(fields[0], fields[1..], other);
      if SameName(fields[0].0, name) {
        HasCons((fields[0].0, value), fields[1..], other);
        SameNameTrans(fields[0].0, name, other);
      } else {
        PutKeeps(fields[1..], name, value, other);
        HasCons(fields[0], Put(fields[1..], name, value), other);
      }
    } else {
      HasCons((name, value), [], other);
      assert [(name, value)] + [] == [(name, value)];
    }
  }

  lemma SameNameTrans(a: string, b: string, c: string)
    requires SameName(a, b)
    ensures SameName(a, c) <==> SameName(b, c)
  {
  }
}
