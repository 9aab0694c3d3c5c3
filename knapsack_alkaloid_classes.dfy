/**
 * Alkaloid classes of KNApSAcK metabolites
 * (knapsack_metabolite_properties/alkaloid_classes.py): a curated table
 * lists (alkaloid, class) pairs; each metabolite gets the tuple of classes
 * whose alkaloid collection contains its exact name.
 */
module KnapsackAlkaloidClasses {
  import opened Base

  /** A row of the curated table: an alkaloid and one class of it. */
  datatype ClassRow = ClassRow(alkaloid: string, alkaloidClass: string)

  /**
   * The dictionary `get_class_information_dict` returns: its keys in order
   * of first appearance of each class, and the collection of each class.
   */
  datatype ClassDict = ClassDict(classes: seq<string>, members: map<string, set<string>>)

  /** Every key has a collection. */
  predicate ValidDict(d: ClassDict)
  {
    forall c :: c in d.classes ==> c in d.members
  }

  function ClassColumn(rows: seq<ClassRow>): seq<string>
  {
    seq(|rows|, i requires 0 <= i < |rows| => rows[i].alkaloidClass)
  }

  /** `get_class_information_dict`: each class, once, with the distinct alkaloids listed under it. */
  function ClassInformation(rows: seq<ClassRow>): (d: ClassDict)
    ensures ValidDict(d) && NoDup(d.classes)
    ensures forall c :: c in d.classes <==> exists i :: 0 <= i < |rows| && rows[i].alkaloidClass == c
    ensures forall c, a :: c in d.classes ==> (a in d.members[c] <==> ClassRow(a, c) in rows)
  {
    var classes := Dedup(ClassColumn(rows));
    var d := ClassDict(classes, map c | c in classes :: set i | 0 <= i < |rows| && rows[i].alkaloidClass == c :: rows[i].alkaloid);
    assert forall c :: c in classes <==> exists i :: 0 <= i < |rows| && rows[i].alkaloidClass == c by {
      forall c | c in classes ensures exists i :: 0 <= i < |rows| && rows[i].alkaloidClass == c {
        var i :| 0 <= i < |rows| && ClassColumn(rows)[i] == c;
      }
      forall i | 0 <= i < |rows| ensures rows[i].alkaloidClass in classes {
        assert ClassColumn(rows)[i] == rows[i].alkaloidClass;
      }
    }
    assert forall c, a :: c in classes ==> (a in d.members[c] <==> ClassRow(a, c) in rows) by {
      forall c, a | c in classes ensures a in d.members[c] <==> ClassRow(a, c) in rows {
        if ClassRow(a, c) in rows {
          var i :| 0 <= i < |rows| && rows[i] == ClassRow(a, c);
          assert rows[i].alkaloid in d.members[c];
        }
      }
    }
    d
  }

  /** The classes, in key order, whose collection holds the metabolite. */
  function ClassTuple(d: ClassDict, metabolite: string): (t: seq<string>)
    requires ValidDict(d)
    ensures forall c :: c in t <==> c in d.classes && metabolite in d.members[c]
  {
    ClassTupleOf(d, d.classes, metabolite)
  }

  function ClassTupleOf(d: ClassDict, keys: seq<string>, metabolite: string): (t: seq<string>)
    requires forall c :: c in keys ==> c in d.members
    ensures forall c :: c in t <==> c in keys && metabolite in d.members[c]
  {
    if |keys| == 0 then []
    else
      var last := keys[|keys| - 1];
      assert keys == keys[..|keys| - 1] + [last];
      ClassTupleOf(d, keys[..|keys| - 1], metabolite) + (if metabolite in d.members[last] then [last] else [])
  }

  /** `alkaloid_class_from_metabolite`: the loop over the dictionary's keys. */
  method AlkaloidClassFromMetabolite(metabolite: string, d: ClassDict) returns (out: seq<string>)
    requires ValidDict(d)
    ensures out == ClassTuple(d, metabolite)
  {
    out := [];
    var i := 0;
    while i < |d.classes|
      invariant i <= |d.classes|
      invariant out == ClassTupleOf(d, d.classes[..i], metabolite)
    {
      var c := d.classes[i];
      assert d.classes[..i + 1][..i] == d.classes[..i];
      if metabolite in d.members[c] {
        out := out + [c];
      }
      i := i + 1;
    }
    assert d.classes[..i] == d.classes;
  }

  /** Distinct keys give a tuple that names no class twice. */
  lemma {:induction false} ClassTupleOfOrdered(d: ClassDict, keys: seq<string>, metabolite: string)
    requires forall c :: c in keys ==> c in d.members
    requires NoDup(keys)
    ensures NoDup(ClassTupleOf(d, keys, metabolite))
  {
    if |keys| > 0 {
      var n := |keys| - 1;
      ClassTupleOfOrdered(d, keys[..n], metabolite);
      var t := ClassTupleOf(d, keys[..n], metabolite);
      if metabolite in d.members[keys[n]] {
        assert keys[n] !in keys[..n];
        assert keys[n] !in t;
      }
    }
  }

  /**
   * Against the table: the metabolite's tuple names each class the table
   * lists it under, exactly once, and no other.
   */
  lemma ClassesOfMetabolite(rows: seq<ClassRow>, metabolite: string)
    ensures forall c :: c in ClassTuple(ClassInformation(rows), metabolite) <==> ClassRow(metabolite, c) in rows
    ensures NoDup(ClassTuple(ClassInformation(rows), metabolite))
  {
    var d := ClassInformation(rows);
    ClassTupleOfOrdered(d, d.classes, metabolite);
    forall c | ClassRow(metabolite, c) in rows ensures c in d.classes {
      var i :| 0 <= i < |rows| && rows[i] == ClassRow(metabolite, c);
    }
  }

  /** `get_alkaloid_classes_from_metabolites`: the `alkaloid_class` value of each metabolite of the table. */
  function AlkaloidClassesFromMetabolites(rows: seq<ClassRow>, metabolites: seq<string>): (col: seq<seq<string>>)
    ensures |col| == |metabolites|
    ensures forall i, c :: 0 <= i < |metabolites| ==> (c in col[i] <==> ClassRow(metabolites[i], c) in rows)
  {
    var d := ClassInformation(rows);
    var col := seq(|metabolites|, i requires 0 <= i < |metabolites| => ClassTuple(d, metabolites[i]));
    assert forall i, c :: 0 <= i < |metabolites| ==> (c in col[i] <==> ClassRow(metabolites[i], c) in rows) by {
      forall i | 0 <= i < |metabolites| ensures forall c :: c in col[i] <==> ClassRow(metabolites[i], c) in rows {
        ClassesOfMetabolite(rows, metabolites[i]);
      }
    }
    col
  }
}
