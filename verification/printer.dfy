/**
 * The diagnostic printer `Inspector.print(_:)`: a value is first reflected
 * into a tree of dictionaries keyed by `"name: type"`, arrays and leaf
 * strings, and the tree is then written out, one entry per line, indented by
 * two spaces per level, dictionary keys in ascending order and array
 * elements in positional order.
 *
 * A Swift dictionary that is sorted by key before it is written is modelled
 * as an association list kept strictly sorted by key: inserting a key is the
 * dictionary assignment, and the list order is the order `sorted(by:)` gives.
 */
module InspectorPrint {
  import opened Wrappers
  import opened Strings
  import opened Values

  /** The result of `attributesTree(value:)`. */
  datatype Tree =
    | Leaf(text: string)            // the string " = " + description
    | Dict(entries: seq<Entry>)     // [String: Any], kept sorted by key
    | List(items: seq<Tree>)        // [Any]

  datatype Entry = Entry(key: string, tree: Tree)

  // ---------------------------------------------------------------------------
  // The sorted dictionary

  /** Keys strictly ascending, hence also distinct. */
  predicate StrictlySorted(es: seq<Entry>) {
    forall i, j | 0 <= i < j < |es| :: Less(es[i].key, es[j].key)
  }

  function Keys(es: seq<Entry>): set<string> {
    set i | 0 <= i < |es| :: es[i].key
  }

  /** `dict[key]`. */
  function Lookup(es: seq<Entry>, key: string): (r: Option<Tree>)
    ensures r.Some? <==> key in Keys(es)
  {
    if |es| == 0 then None
    else if es[0].key == key then Some(es[0].tree)
    else
      assert Keys(es) == {es[0].key} + Keys(es[1..]) by {
        assert forall i | 1 <= i < |es| :: es[i].key == es[1..][i - 1].key;
      }
      Lookup(es[1..], key)
  }

  /** `dict[key] = t`, keeping the keys in ascending order. */
  function Insert(es: seq<Entry>, key: string, t: Tree): (r: seq<Entry>)
    ensures Keys(r) == Keys(es) + {key}
    ensures |r| >= 1
  {
    if |es| == 0 then
      assert Keys([Entry(key, t)]) == {key} by { assert [Entry(key, t)][0].key == key; }
      [Entry(key, t)]
    else if es[0].key == key then
      assert Keys(es) == {es[0].key} + Keys(es[1..]) by { KeysCons(es); }
      assert Keys([Entry(key, t)] + es[1..]) == {key} + Keys(es[1..]) by { KeysCons([Entry(key, t)] + es[1..]); }
      [Entry(key, t)] + es[1..]
    else if Less(key, es[0].key) then
      assert Keys([Entry(key, t)] + es) == {key} + Keys(es) by { KeysCons([Entry(key, t)] + es); }
      [Entry(key, t)] + es
    else
      var rest := Insert(es[1..], key, t);
      assert Keys(es) == {es[0].key} + Keys(es[1..]) by { KeysCons(es); }
      assert Keys([es[0]] + rest) == {es[0].key} + Keys(rest) by { KeysCons([es[0]] + rest); }
      [es[0]] + rest
  }

  lemma KeysCons(es: seq<Entry>)
    requires |es| >= 1
    ensures Keys(es) == {es[0].key} + Keys(es[1..])
  {
    assert forall i | 1 <= i < |es| :: es[i].key == es[1..][i - 1].key;
    forall x | x in Keys(es[1..]) ensures x in Keys(es) {
      var m :| 0 <= m < |es[1..]| && es[1..][m].key == x;
      assert es[m + 1].key == x;
    }
  }

  /** Inserting keeps the keys strictly ascending. */
  lemma {:induction false} InsertKeepsSorted(es: seq<Entry>, key: string, t: Tree)
    requires StrictlySorted(es)
    ensures StrictlySorted(Insert(es, key, t))
  {
    if |es| == 0 {
    } else if es[0].key == key {
      var r := Insert(es, key, t);
      assert forall i | 0 <= i < |r| :: r[i].key == es[i].key;
    } else if Less(key, es[0].key) {
      forall x | x in Keys(es) ensures Less(key, x) {
        var m :| 0 <= m < |es| && es[m].key == x;
        if m > 0 {
          LessTransitive(key, es[0].key, es[m].key);
        }
      }
      SortedCons(Entry(key, t), es);
    } else {
      LessTotal(key, es[0].key);
      InsertKeepsSorted(es[1..], key, t);
      var rest := Insert(es[1..], key, t);
      InsertAboveHead(es, key, t);
      SortedCons(es[0], rest);
      assert Insert(es, key, t) == [es[0]] + rest;
    }
  }

  /** Every key of the tail after an insertion of a larger key is above the head. */
  lemma InsertAboveHead(es: seq<Entry>, key: string, t: Tree)
    requires StrictlySorted(es) && |es| > 0 && Less(es[0].key, key)
    ensures forall x | x in Keys(Insert(es[1..], key, t)) :: Less(es[0].key, x)
  {
    forall x | x in Keys(Insert(es[1..], key, t)) ensures Less(es[0].key, x) {
      if x != key {
        var m :| 0 <= m < |es[1..]| && es[1..][m].key == x;
        assert es[m + 1].key == x;
      }
    }
  }

  /** A head below every key of a sorted tail gives a sorted list. */
  lemma SortedCons(e: Entry, rest: seq<Entry>)
    requires StrictlySorted(rest)
    requires forall x | x in Keys(rest) :: Less(e.key, x)
    ensures StrictlySorted([e] + rest)
  {
    var r := [e] + rest;
    forall i, j | 0 <= i < j < |r| ensures Less(r[i].key, r[j].key) {
      if i == 0 {
        assert r[j].key == rest[j - 1].key;
        assert rest[j - 1].key in Keys(rest);
      } else {
        assert r[i].key == rest[i - 1].key && r[j].key == rest[j - 1].key;
      }
    }
  }

  /** In a sorted dictionary every entry is what its own key looks up: keys are distinct. */
  lemma {:induction false} SortedLookup(es: seq<Entry>, k: nat)
    requires StrictlySorted(es)
    requires k < |es|
    ensures Lookup(es, es[k].key) == Some(es[k].tree)
  {
    if k > 0 {
      LessIrreflexive(es[k].key);
      assert es[0].key != es[k].key;
      assert StrictlySorted(es[1..]) by {
        forall i, j | 0 <= i < j < |es[1..]| ensures Less(es[1..][i].key, es[1..][j].key) {
          assert es[1..][i] == es[i + 1] && es[1..][j] == es[j + 1];
        }
      }
      SortedLookup(es[1..], k - 1);
      assert es[1..][k - 1] == es[k];
    }
  }

  /** Inserting behaves as dictionary assignment: the new key maps to `t`, the others are unchanged. */
  lemma {:induction false} InsertAssigns(es: seq<Entry>, key: string, t: Tree, other: string)
    ensures Lookup(Insert(es, key, t), other) == if other == key then Some(t) else Lookup(es, other)
  {
    if |es| > 0 && es[0].key != key && !Less(key, es[0].key) {
      InsertAssigns(es[1..], key, t, other);
      var r := Insert(es, key, t);
      assert r[1..] == Insert(es[1..], key, t);
    } else if |es| > 0 && es[0].key == key {
      var r := Insert(es, key, t);
      assert r[1..] == es[1..];
    } else if |es| > 0 {
      var r := Insert(es, key, t);
      assert r[1..] == es;
    }
  }

  // ---------------------------------------------------------------------------
  // attributesTree(value:)

  /** The dictionary key of the child at `offset`: `"label: type"`, or `"[offset]: type"` without a label. */
  function ChildKey(c: Child, offset: nat): string {
    c.name.GetOr("[" + NatToString(offset) + "]") + ": " + TypeName(c.value)
  }

  /** The dictionary key of an `Inspectable` value's body. */
  function BodyKey(v: Value): string
    requires IsInspectable(v)
  {
    "body: " + TypeName(v.body.value)
  }

  /** Two digit runs each closed by `]` can only begin equal strings if they are the same run. */
  lemma DigitRunsAgree(a: string, b: string, x: string, y: string)
    requires forall k | 0 <= k < |a| :: IsDigit(a[k])
    requires forall k | 0 <= k < |b| :: IsDigit(b[k])
    ensures a + "]" + x == b + "]" + y ==> a == b
  {
    var s, t := a + "]" + x, b + "]" + y;
    if |a| < |b| {
      assert s[|a|] == ']' && t[|a|] == b[|a|];
    } else if |b| < |a| {
      assert t[|b|] == ']' && s[|b|] == a[|b|];
    } else {
      assert s[..|a|] == a && t[..|b|] == b;
    }
  }

  /** Unlabelled children at different offsets get different keys, so neither overwrites the other. */
  lemma ChildKeyUnlabelledDistinct(c: Child, d: Child, i: nat, j: nat)
    requires c.name.None? && d.name.None?
    requires i != j
    ensures ChildKey(c, i) != ChildKey(d, j)
  {
    var a, b := NatToString(i), NatToString(j);
    var x, y := ": " + TypeName(c.value), ": " + TypeName(d.value);
    assert ChildKey(c, i) == "[" + (a + "]" + x);
    assert ChildKey(d, j) == "[" + (b + "]" + y);
    if ChildKey(c, i) == ChildKey(d, j) {
      assert ("[" + (a + "]" + x))[1..] == a + "]" + x;
      assert ("[" + (b + "]" + y))[1..] == b + "]" + y;
      DigitRunsAgree(a, b, x, y);
      NatToStringInjective(i, j);
    }
  }

  /** The body's key never coincides with the key of an unlabelled child. */
  lemma BodyKeyNotUnlabelled(v: Value, c: Child, i: nat)
    requires IsInspectable(v)
    requires c.name.None?
    ensures BodyKey(v) != ChildKey(c, i)
  {
    assert BodyKey(v)[0] == 'b';
    assert ChildKey(c, i)[0] == '[';
  }

  /**
   * `attributesTree(value:)`: an array becomes the array of its elements'
   * trees; any other value a dictionary of its children (and of its body, when
   * it is `Inspectable`), or the leaf `" = " + description` when that
   * dictionary would be empty.
   */
  function AttributesTree(v: Value): (r: Tree)
    decreases v, 1
    ensures r.List? <==> v.Array?
    ensures r.Dict? ==> |r.entries| > 0
  {
    if v.Array? then List(ElementTrees(v, 0))
    else
      var d := ChildEntries(v, 0, []);
      var d' := if IsInspectable(v) then Insert(d, BodyKey(v), AttributesTree(v.body.value)) else d;
      if |d'| == 0 then Leaf(" = " + Description(v)) else Dict(d')
  }

  /** The trees of the elements of an array from position `i` on. */
  function ElementTrees(v: Value, i: nat): (r: seq<Tree>)
    requires v.Array?
    decreases v, 0, |v.elements| - i
    ensures |r| == if i <= |v.elements| then |v.elements| - i else 0
    ensures forall k | 0 <= k < |r| :: r[k] == AttributesTree(v.elements[i + k])
  {
    if i >= |v.elements| then [] else [AttributesTree(v.elements[i])] + ElementTrees(v, i + 1)
  }

  /** The dictionary `acc` after adding the children of `v` from offset `i` on. */
  function ChildEntries(v: Value, i: nat, acc: seq<Entry>): seq<Entry>
    requires !v.Array?
    decreases v, 0, |Reflect(v)| - i
  {
    var cs := Reflect(v);
    if i >= |cs| then acc
    else ChildEntries(v, i + 1, Insert(acc, ChildKey(cs[i], i), AttributesTree(cs[i].value)))
  }

  /** The keys of the children of `v` from offset `i` on. */
  function ChildKeysFrom(v: Value, i: nat): set<string> {
    set k | i <= k < |Reflect(v)| :: ChildKey(Reflect(v)[k], k)
  }

  /** The keys `attributesTree` gives a non-array value. */
  function ExpectedKeys(v: Value): set<string>
    requires !v.Array?
  {
    ChildKeysFrom(v, 0) + (if IsInspectable(v) then {BodyKey(v)} else {})
  }

  lemma {:induction false} ChildEntriesInvariant(v: Value, i: nat, acc: seq<Entry>)
    requires !v.Array?
    requires i <= |Reflect(v)|
    requires StrictlySorted(acc)
    ensures StrictlySorted(ChildEntries(v, i, acc))
    ensures Keys(ChildEntries(v, i, acc)) == Keys(acc) + ChildKeysFrom(v, i)
    decreases |Reflect(v)| - i
  {
    var cs := Reflect(v);
    if i < |cs| {
      var acc' := Insert(acc, ChildKey(cs[i], i), AttributesTree(cs[i].value));
      InsertKeepsSorted(acc, ChildKey(cs[i], i), AttributesTree(cs[i].value));
      ChildEntriesInvariant(v, i + 1, acc');
      ChildKeysFromStep(v, i);
    }
  }

  lemma ChildKeysFromStep(v: Value, i: nat)
    requires i < |Reflect(v)|
    ensures ChildKeysFrom(v, i) == {ChildKey(Reflect(v)[i], i)} + ChildKeysFrom(v, i + 1)
  {
    var cs := Reflect(v);
    assert ChildKey(cs[i], i) in ChildKeysFrom(v, i);
  }

  /** No later child of `v` has the same dictionary key as the child at offset `k`. */
  predicate LastWithKey(v: Value, k: nat)
    requires k < |Reflect(v)|
  {
    ChildKey(Reflect(v)[k], k) !in ChildKeysFrom(v, k + 1)
  }

  /** Adding children whose keys differ from `key` leaves `key`'s entry alone. */
  lemma {:induction false} ChildEntriesUntouched(v: Value, i: nat, acc: seq<Entry>, key: string)
    requires !v.Array?
    requires key !in ChildKeysFrom(v, i)
    ensures Lookup(ChildEntries(v, i, acc), key) == Lookup(acc, key)
    decreases |Reflect(v)| - i
  {
    var cs := Reflect(v);
    if i < |cs| {
      var acc' := Insert(acc, ChildKey(cs[i], i), AttributesTree(cs[i].value));
      assert ChildKey(cs[i], i) in ChildKeysFrom(v, i);
      InsertAssigns(acc, ChildKey(cs[i], i), AttributesTree(cs[i].value), key);
      assert ChildKeysFrom(v, i + 1) <= ChildKeysFrom(v, i);
      ChildEntriesUntouched(v, i + 1, acc', key);
    }
  }

  /** The last child with a given key decides that key's tree: a later child overwrites an earlier one. */
  lemma {:induction false} ChildEntriesLookup(v: Value, i: nat, acc: seq<Entry>, k: nat)
    requires !v.Array?
    requires i <= k < |Reflect(v)|
    requires LastWithKey(v, k)
    ensures Lookup(ChildEntries(v, i, acc), ChildKey(Reflect(v)[k], k)) == Some(AttributesTree(Reflect(v)[k].value))
    decreases |Reflect(v)| - i
  {
    var cs := Reflect(v);
    var acc' := Insert(acc, ChildKey(cs[i], i), AttributesTree(cs[i].value));
    if i == k {
      InsertAssigns(acc, ChildKey(cs[k], k), AttributesTree(cs[k].value), ChildKey(cs[k], k));
      ChildEntriesUntouched(v, k + 1, acc', ChildKey(cs[k], k));
    } else {
      ChildEntriesLookup(v, i + 1, acc', k);
    }
  }

  /**
   * The child at offset `k` appears in the tree of `v` under its key, with
   * its own tree, unless a later child or the body reuses that key.
   */
  lemma AttributesTreeChild(v: Value, k: nat)
    requires !v.Array?
    requires k < |Reflect(v)|
    requires LastWithKey(v, k)
    requires !(IsInspectable(v) && ChildKey(Reflect(v)[k], k) == BodyKey(v))
    ensures AttributesTree(v).Dict?
    ensures Lookup(AttributesTree(v).entries, ChildKey(Reflect(v)[k], k)) == Some(AttributesTree(Reflect(v)[k].value))
  {
    var cs := Reflect(v);
    var key := ChildKey(cs[k], k);
    var d := ChildEntries(v, 0, []);
    ChildEntriesLookup(v, 0, [], k);
    if IsInspectable(v) {
      InsertAssigns(d, BodyKey(v), AttributesTree(v.body.value), key);
      assert |Insert(d, BodyKey(v), AttributesTree(v.body.value))| >= 1;
    } else {
      assert key in Keys(d);
    }
  }

  /**
   * A non-array value becomes a leaf exactly when it has no children and is
   * not `Inspectable`; otherwise a dictionary, sorted by key, whose keys are
   * those of its children and of its body, with the body's tree under the
   * body's key.
   */
  lemma AttributesTreeShape(v: Value)
    requires !v.Array?
    ensures AttributesTree(v).Leaf? <==> ExpectedKeys(v) == {}
    ensures AttributesTree(v).Leaf? ==> AttributesTree(v).text == " = " + Description(v)
    ensures AttributesTree(v).Dict? ==> StrictlySorted(AttributesTree(v).entries)
    ensures AttributesTree(v).Dict? ==> Keys(AttributesTree(v).entries) == ExpectedKeys(v)
    ensures IsInspectable(v) ==>
      Lookup(AttributesTree(v).entries, BodyKey(v)) == Some(AttributesTree(v.body.value))
    ensures forall k | 0 <= k < |Reflect(v)| && LastWithKey(v, k) && !(IsInspectable(v) && ChildKey(Reflect(v)[k], k) == BodyKey(v)) ::
      AttributesTree(v).Dict? && Lookup(AttributesTree(v).entries, ChildKey(Reflect(v)[k], k)) == Some(AttributesTree(Reflect(v)[k].value))
  {
    forall k | 0 <= k < |Reflect(v)| && LastWithKey(v, k) && !(IsInspectable(v) && ChildKey(Reflect(v)[k], k) == BodyKey(v))
      ensures AttributesTree(v).Dict? && Lookup(AttributesTree(v).entries, ChildKey(Reflect(v)[k], k)) == Some(AttributesTree(Reflect(v)[k].value))
    {
      AttributesTreeChild(v, k);
    }
    var d := ChildEntries(v, 0, []);
    ChildEntriesInvariant(v, 0, []);
    assert Keys([]) == {};
    if IsInspectable(v) {
      var t := AttributesTree(v.body.value);
      InsertKeepsSorted(d, BodyKey(v), t);
      InsertAssigns(d, BodyKey(v), t, BodyKey(v));
    }
    var d' := if IsInspectable(v) then Insert(d, BodyKey(v), AttributesTree(v.body.value)) else d;
    if |d'| == 0 {
      assert Keys(d') == {};
    } else {
      assert d'[0].key in Keys(d');
    }
  }

  /** An array becomes the array of its elements' trees, in the same order. */
  lemma AttributesTreeOfArray(v: Value)
    requires v.Array?
    ensures AttributesTree(v).List?
    ensures |AttributesTree(v).items| == |v.elements|
    ensures forall k | 0 <= k < |v.elements| :: AttributesTree(v).items[k] == AttributesTree(v.elements[k])
  {
  }

  // ---------------------------------------------------------------------------
  // print(_:level:) and the descriptions of dictionaries and arrays

  /** The text is non-empty and its last character is a newline. */
  predicate EndsLine(s: string) {
    |s| > 0 && s[|s| - 1] == '\n'
  }

  /** `newline(value:)`: a non-empty array or a dictionary starts on a new line. */
  function Newline(t: Tree): (r: string)
    ensures r == "\n" || r == ""
    ensures r == "\n" <==> t.Dict? || (t.List? && |t.items| > 0)
  {
    match t
    case List(items) => if |items| > 0 then "\n" else ""
    case Dict(_) => "\n"
    case Leaf(_) => ""
  }

  /** `print(_:level:)`; every printout ends a line (`PrintTreeEndsLine`). */
  function PrintTree(t: Tree, level: nat): (r: string)
    decreases t
    ensures |r| > 0
  {
    Newline(t) +
    match t
    case List(items) => ArrayDescription(items, level)
    case Dict(es) => DictLines(es, level)
    case Leaf(text) => text + "\n"
  }

  /** `Dictionary.description(level:)`: one line per entry, in key order. */
  function DictLines(es: seq<Entry>, level: nat): (r: string)
    decreases es
    ensures |es| == 0 <==> r == ""
  {
    if |es| == 0 then ""
    else Indent(level) + es[0].key + PrintTree(es[0].tree, level + 1) + DictLines(es[1..], level)
  }

  /** `Array.description(level:)`. */
  function ArrayDescription(items: seq<Tree>, level: nat): (r: string)
    decreases items, 1
    ensures |r| > 0
  {
    if |items| == 0 then " = []\n" else ArrayLines(items, 0, level)
  }

  /** The lines of the array elements, the first of them at position `from`. */
  function ArrayLines(items: seq<Tree>, from: nat, level: nat): (r: string)
    decreases items, 0
    ensures |items| == 0 <==> r == ""
  {
    if |items| == 0 then ""
    else
      Indent(level) + "[" + NatToString(from) + "]" + PrintTree(items[0], level + 1)
      + ArrayLines(items[1..], from + 1, level)
  }

  /** Every printout ends with a newline. */
  lemma {:induction false} PrintTreeEndsLine(t: Tree, level: nat)
    decreases t, 2
    ensures EndsLine(PrintTree(t, level))
  {
    match t
    case Leaf(text) =>
    case Dict(es) => DictLinesEndsLine(es, level);
    case List(items) =>
      if |items| > 0 {
        ArrayLinesEndsLine(items, 0, level);
      }
  }

  /** A non-empty dictionary's lines end with a newline. */
  lemma {:induction false} DictLinesEndsLine(es: seq<Entry>, level: nat)
    decreases es, 1
    ensures |es| > 0 ==> EndsLine(DictLines(es, level))
  {
    if |es| > 0 {
      var rest := DictLines(es[1..], level);
      if |es| == 1 {
        PrintTreeEndsLine(es[0].tree, level + 1);
        assert rest == "";
      } else {
        DictLinesEndsLine(es[1..], level);
      }
      EndsLineAppend(Indent(level) + es[0].key + PrintTree(es[0].tree, level + 1), rest);
    }
  }

  /** Non-empty array lines end with a newline. */
  lemma {:induction false} ArrayLinesEndsLine(items: seq<Tree>, from: nat, level: nat)
    decreases items, 1
    ensures |items| > 0 ==> EndsLine(ArrayLines(items, from, level))
  {
    if |items| > 0 {
      var rest := ArrayLines(items[1..], from + 1, level);
      if |items| == 1 {
        PrintTreeEndsLine(items[0], level + 1);
        assert rest == "";
      } else {
        ArrayLinesEndsLine(items[1..], from + 1, level);
      }
      EndsLineAppend(Indent(level) + "[" + NatToString(from) + "]" + PrintTree(items[0], level + 1), rest);
    }
  }

  /** Appending keeps the last line ended, or takes the ending of the appended text. */
  lemma EndsLineAppend(a: string, b: string)
    requires (EndsLine(a) && b == "") || EndsLine(b)
    ensures EndsLine(a + b)
  {
    if b == "" {
      assert a + b == a;
    }
  }

  /** `Inspector.print(_:)`: the type name, then the tree from level 1. */
  function Print(v: Value): (s: string)
    ensures HasPrefix(s, TypeName(v))
  {
    var s := TypeName(v) + PrintTree(AttributesTree(v), 1);
    assert s[..|TypeName(v)|] == TypeName(v);
    s
  }

  /** Concatenation of a sequence of strings, in order. */
  function Concat(ss: seq<string>): string {
    if |ss| == 0 then "" else ss[0] + Concat(ss[1..])
  }

  /** The block a dictionary entry prints as. */
  function EntryBlock(e: Entry, level: nat): string {
    Indent(level) + e.key + PrintTree(e.tree, level + 1)
  }

  /** The block the array element at position `i` prints as. */
  function ElementBlock(t: Tree, i: nat, level: nat): string {
    Indent(level) + "[" + NatToString(i) + "]" + PrintTree(t, level + 1)
  }

  /** A dictionary prints as the blocks of its entries, in list (that is, key) order. */
  lemma {:induction false} DictLinesAreBlocks(es: seq<Entry>, level: nat)
    ensures DictLines(es, level) == Concat(seq(|es|, i requires 0 <= i < |es| => EntryBlock(es[i], level)))
  {
    var blocks := seq(|es|, i requires 0 <= i < |es| => EntryBlock(es[i], level));
    if |es| > 0 {
      DictLinesAreBlocks(es[1..], level);
      assert blocks[1..] == seq(|es[1..]|, i requires 0 <= i < |es[1..]| => EntryBlock(es[1..][i], level));
    }
  }

  /** Array elements print as the blocks `[i]` for i = from, from + 1, ..., in order. */
  lemma {:induction false} ArrayLinesAreBlocks(items: seq<Tree>, from: nat, level: nat)
    ensures ArrayLines(items, from, level)
      == Concat(seq(|items|, i requires 0 <= i < |items| => ElementBlock(items[i], from + i, level)))
  {
    var blocks := seq(|items|, i requires 0 <= i < |items| => ElementBlock(items[i], from + i, level));
    if |items| > 0 {
      ArrayLinesAreBlocks(items[1..], from + 1, level);
      assert Concat(blocks) == blocks[0] + Concat(blocks[1..]);
      assert blocks[1..] == seq(|items[1..]|, i requires 0 <= i < |items[1..]| => ElementBlock(items[1..][i], from + 1 + i, level));
    }
  }

  /** In the printed dictionary, entry `k`'s block comes after the blocks of the entries before it and before the rest. */
  lemma DictPrintOrder(es: seq<Entry>, level: nat, k: nat)
    requires k < |es|
    ensures DictLines(es, level) == DictLines(es[..k], level) + EntryBlock(es[k], level) + DictLines(es[k + 1..], level)
  {
    DictLinesAppend(es[..k], es[k..], level);
    assert es[..k] + es[k..] == es;
    assert es[k..][1..] == es[k + 1..];
  }

  lemma AppendAssociative(h: string, x: string, y: string)
    ensures h + (x + y) == (h + x) + y
  {
  }

  /** One step of the append proofs, with the printouts as plain strings. */
  lemma ConsStep(whole: string, left: string, head: string, x: string, y: string)
    requires whole == head + (x + y)
    requires left == head + x
    ensures whole == left + y
  {
    AppendAssociative(head, x, y);
  }

  lemma DictLinesCons(es: seq<Entry>, level: nat)
    requires |es| > 0
    ensures DictLines(es, level) == EntryBlock(es[0], level) + DictLines(es[1..], level)
  {
  }

  lemma {:induction false} DictLinesAppend(a: seq<Entry>, b: seq<Entry>, level: nat)
    ensures DictLines(a + b, level) == DictLines(a, level) + DictLines(b, level)
  {
    if |a| == 0 {
      assert a + b == b;
    } else {
      var ab := a + b;
      DictLinesAppend(a[1..], b, level);
      assert ab[1..] == a[1..] + b;
      assert ab[0] == a[0];
      var head := EntryBlock(a[0], level);
      var x := DictLines(a[1..], level);
      var y := DictLines(b, level);
      DictLinesCons(ab, level);
      DictLinesCons(a, level);
      ConsStep(DictLines(ab, level), DictLines(a, level), head, x, y);
    }
  }

  /** The printed array places element `k` under `[k]`, after elements 0..k-1. */
  lemma ArrayPrintOrder(items: seq<Tree>, level: nat, k: nat)
    requires k < |items|
    ensures ArrayDescription(items, level)
      == ArrayLines(items[..k], 0, level) + ElementBlock(items[k], k, level) + ArrayLines(items[k + 1..], k + 1, level)
  {
    var pre, post := items[..k], items[k..];
    ArrayLinesAppend(pre, post, 0, level);
    assert pre + post == items;
    assert post[0] == items[k] && post[1..] == items[k + 1..];
    ArrayLinesCons(post, k, level);
    var a, b, c := ArrayLines(pre, 0, level), ElementBlock(items[k], k, level), ArrayLines(items[k + 1..], k + 1, level);
    assert ArrayDescription(items, level) == ArrayLines(items, 0, level) == a + (b + c);
    AppendAssociative(a, b, c);
  }

  lemma {:induction false} ArrayLinesAppend(a: seq<Tree>, b: seq<Tree>, from: nat, level: nat)
    ensures ArrayLines(a + b, from, level) == ArrayLines(a, from, level) + ArrayLines(b, from + |a|, level)
  {
    if |a| == 0 {
      assert a + b == b;
    } else {
      ArrayLinesAppend(a[1..], b, from + 1, level);
      assert (a + b)[1..] == a[1..] + b;
      assert (a + b)[0] == a[0];
      var head := ElementBlock(a[0], from, level);
      ArrayLinesCons(a + b, from, level);
      ArrayLinesCons(a, from, level);
      var x := ArrayLines(a[1..], from + 1, level);
      var y := ArrayLines(b, from + |a|, level);
      assert ArrayLines(a + b, from, level) == head + (x + y);
      assert ArrayLines(a, from, level) == head + x;
      AppendAssociative(head, x, y);
    }
  }

  lemma ArrayLinesCons(items: seq<Tree>, from: nat, level: nat)
    requires |items| > 0
    ensures ArrayLines(items, from, level) == ElementBlock(items[0], from, level) + ArrayLines(items[1..], from + 1, level)
  {
  }

  /** A dictionary or a non-empty array starts a new line, and its first line is indented to `level`. */
  lemma NestedPrintStartsLine(t: Tree, level: nat)
    requires (t.Dict? && |t.entries| > 0) || (t.List? && |t.items| > 0)
    ensures HasPrefix(PrintTree(t, level), "\n" + Indent(level))
  {
    var lines := if t.Dict? then DictLines(t.entries, level) else ArrayLines(t.items, 0, level);
    if t.Dict? {
      var e := t.entries[0];
      PrefixOfAppend(Indent(level), e.key, Indent(level));
      PrefixOfAppend(Indent(level) + e.key, PrintTree(e.tree, level + 1), Indent(level));
      PrefixOfAppend(Indent(level) + e.key + PrintTree(e.tree, level + 1), DictLines(t.entries[1..], level), Indent(level));
    } else {
      var head := Indent(level) + "[" + NatToString(0) + "]";
      assert HasPrefix(head, Indent(level)) by {
        PrefixOfAppend(Indent(level), "[", Indent(level));
        PrefixOfAppend(Indent(level) + "[", NatToString(0), Indent(level));
        PrefixOfAppend(Indent(level) + "[" + NatToString(0), "]", Indent(level));
      }
      PrefixOfAppend(head, PrintTree(t.items[0], level + 1), Indent(level));
      PrefixOfAppend(head + PrintTree(t.items[0], level + 1), ArrayLines(t.items[1..], 1, level), Indent(level));
    }
    assert PrintTree(t, level) == "\n" + lines;
    assert HasPrefix(lines, Indent(level));
    assert (("\n" + lines)[..1 + |Indent(level)|]) == "\n" + lines[..|Indent(level)|];
  }

  lemma PrefixOfAppend(a: string, b: string, p: string)
    requires HasPrefix(a, p)
    ensures HasPrefix(a + b, p)
  {
    assert (a + b)[..|p|] == a[..|p|];
  }

  /** An empty array prints as `" = []"` on the same line. */
  lemma EmptyArrayPrint(level: nat)
    ensures PrintTree(List([]), level) == " = []\n"
  {
  }

  /** A leaf prints as its text on the same line. */
  lemma LeafPrint(text: string, level: nat)
    ensures PrintTree(Leaf(text), level) == text + "\n"
  {
  }
}
