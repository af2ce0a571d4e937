/** HTMLparser.c 1932-1968: looking entities up in a table. */
module Entities {
  import opened Strings
  import opened HtmlEncode

  datatype Entity = Entity(value: int, name: string)

  /** The name of the first entry from `i` on that has the value. */
  function NameOf(rows: seq<Entity>, i: nat, value: int): Option<string>
    decreases |rows| - i
  {
    if i >= |rows| then None
    else if rows[i].value == value then Some(rows[i].name)
    else NameOf(rows, i + 1, value)
  }

  /** The value of the first entry from `i` on that has the name. */
  function ValueOf(rows: seq<Entity>, i: nat, name: string): Option<int>
    decreases |rows| - i
  {
    if i >= |rows| then None
    else if rows[i].name == name then Some(rows[i].value)
    else ValueOf(rows, i + 1, name)
  }

  function TableOf(rows: seq<Entity>): Table
  {
    Table(value => NameOf(rows, 0, value), name => ValueOf(rows, 0, name))
  }

  ghost predicate Ascending(rows: seq<Entity>)
  {
    forall i, j :: 0 <= i < j < |rows| ==> rows[i].value < rows[j].value
  }

  ghost predicate NamesDiffer(rows: seq<Entity>)
  {
    forall i, j :: 0 <= i < j < |rows| ==> rows[i].name != rows[j].name
  }

  ghost predicate Usable(rows: seq<Entity>)
  {
    && Ascending(rows) && NamesDiffer(rows)
    && forall i :: 0 <= i < |rows| ==> LegalChar(rows[i].value) && LooksLikeName(rows[i].name)
  }

  lemma {:induction false} NameOfWhere(rows: seq<Entity>, i: nat, value: int) returns (at: nat)
    requires NameOf(rows, i, value).Some?
    ensures i <= at < |rows| && rows[at].value == value && NameOf(rows, i, value) == Some(rows[at].name)
    decreases |rows| - i
  {
    if rows[i].value == value { at := i; } else { at := NameOfWhere(rows, i + 1, value); }
  }

  lemma {:induction false} ValueOfAt(rows: seq<Entity>, i: nat, at: nat)
    requires NamesDiffer(rows) && i <= at < |rows|
    ensures ValueOf(rows, i, rows[at].name) == Some(rows[at].value)
    decreases at - i
  {
    if i < at { ValueOfAt(rows, i + 1, at); }
  }

  /** In such a table every name leads back to the value it was found under. */
  lemma UsableIsGood(rows: seq<Entity>)
    requires Usable(rows)
    ensures Good(TableOf(rows))
  {
    var t := TableOf(rows);
    forall c: int, name | t.nameOf(c) == Some(name)
      ensures t.valueOf(name) == Some(c) && LegalChar(c) && LooksLikeName(name)
    {
      var at := NameOfWhere(rows, 0, c);
      ValueOfAt(rows, 0, at);
    }
  }

  lemma {:induction false} NameOfNone(rows: seq<Entity>, i: nat, value: int)
    requires forall k :: i <= k < |rows| ==> rows[k].value != value
    ensures NameOf(rows, i, value) == None
    decreases |rows| - i
  {
    if i < |rows| { NameOfNone(rows, i + 1, value); }
  }

  /** htmlEntityValueLookup: the scan may stop at the first larger value because the table ascends. */
  method EntityValueLookup(rows: seq<Entity>, value: int) returns (r: Option<Entity>)
    requires Ascending(rows)
    ensures r.Some? ==> r.value in rows && r.value.value == value
    ensures r.None? ==> forall e :: e in rows ==> e.value != value
    ensures TableOf(rows).nameOf(value) == if r.Some? then Some(r.value.name) else None
  {
    var i := 0;
    while i < |rows|
      invariant 0 <= i <= |rows|
      invariant forall k :: 0 <= k < i ==> rows[k].value < value
      invariant NameOf(rows, 0, value) == NameOf(rows, i, value)
    {
      if rows[i].value >= value {
        if rows[i].value > value {
          break;
        }
        return Some(rows[i]);
      }
      i := i + 1;
    }
    NameOfNone(rows, i, value);
    r := None;
  }

  /** htmlEntityLookup: a scan for the first entry of that name. */
  method EntityLookup(rows: seq<Entity>, name: string) returns (r: Option<Entity>)
    ensures r.Some? ==> r.value in rows && r.value.name == name
    ensures r.None? ==> forall e :: e in rows ==> e.name != name
    ensures TableOf(rows).valueOf(name) == if r.Some? then Some(r.value.value) else None
  {
    for i := 0 to |rows|
      invariant forall k :: 0 <= k < i ==> rows[k].name != name
      invariant ValueOf(rows, 0, name) == ValueOf(rows, i, name)
    {
      if rows[i].name == name {
        return Some(rows[i]);
      }
    }
    r := None;
  }
}
