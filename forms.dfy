/**
 * PDFFormContainer: the interactive form fields of a document, grouped by
 * name. Same-named fields are one logical name/value pair: setting a value
 * sets it on every member of the group. A button is checked exactly when
 * its export value equals the group's value, which is derived from the
 * stored value and never stored itself.
 */
module Forms {
  import opened Wrappers

  /** PDFFormType. */
  datatype FormType = FormTypeNone | Text | Button | Choice | Signature

  /** A field as the container sees it. id stands for the identity of the
      PDFForm instance (the object number of its field dictionary). */
  datatype Form = Form(id: nat, name: string, formType: FormType, value: string, exportValue: Option<string>)

  /** A button is checked when its export value is the group's value. */
  predicate IsChecked(f: Form)
  {
    f.formType == Button && f.exportValue == Some(f.value)
  }

  /** Which forms a filter keeps. */
  datatype Criterion = ByName(name: string) | ByType(formType: FormType) | Except(id: nat)

  predicate Matches(c: Criterion, f: Form)
  {
    match c
    case ByName(n) => f.name == n
    case ByType(t) => f.formType == t
    case Except(i) => f.id != i
  }

  /** The forms that meet c, in container order. */
  function Select(fs: seq<Form>, c: Criterion): (r: seq<Form>)
    ensures |r| <= |fs|
    ensures forall g :: g in r ==> Matches(c, g)
  {
    if fs == [] then []
    else
      var rest := Select(fs[..|fs| - 1], c);
      if Matches(c, fs[|fs| - 1]) then rest + [fs[|fs| - 1]] else rest
  }

  /** formsWithName: the field group called n. */
  function WithName(fs: seq<Form>, n: string): seq<Form>
  {
    Select(fs, ByName(n))
  }

  /** formsWithType. */
  function WithType(fs: seq<Form>, t: FormType): seq<Form>
  {
    Select(fs, ByType(t))
  }

  /** removeForm: every occurrence of the form goes. */
  function Without(fs: seq<Form>, id: nat): seq<Form>
  {
    Select(fs, Except(id))
  }

  /** A filter keeps every matching form as often as it occurs, and nothing else. */
  lemma {:induction false} SelectExactly(fs: seq<Form>, c: Criterion)
    ensures forall g :: multiset(Select(fs, c))[g] == if Matches(c, g) then multiset(fs)[g] else 0
    ensures forall g :: g in Select(fs, c) <==> g in fs && Matches(c, g)
    ensures Select(fs, c) == [] <==> forall g :: g in fs ==> !Matches(c, g)
  {
    if fs != [] {
      var init, last := fs[..|fs| - 1], fs[|fs| - 1];
      assert fs == init + [last];
      SelectExactly(init, c);
      assert multiset(fs) == multiset(init) + multiset{last};
      assert last in fs;
    }
  }

  /** formsWithName returns exactly the group, and nothing when no name matches. */
  lemma FormsWithNameExactly(fs: seq<Form>, n: string)
    ensures forall g :: g in WithName(fs, n) <==> g in fs && g.name == n
    ensures WithName(fs, n) == [] <==> forall g :: g in fs ==> g.name != n
  {
    SelectExactly(fs, ByName(n));
  }

  /** formsWithType returns exactly the forms of that type. */
  lemma FormsWithTypeExactly(fs: seq<Form>, t: FormType)
    ensures forall g :: g in WithType(fs, t) <==> g in fs && g.formType == t
    ensures WithType(fs, t) == [] <==> forall g :: g in fs ==> g.formType != t
  {
    SelectExactly(fs, ByType(t));
  }

  /** A form after group n has taken value v. */
  function Assign(f: Form, n: string, v: string): Form
  {
    if f.name == n then f.(value := v) else f
  }

  /** setValue:ForFormWithName: the whole container after the assignment. */
  function SetGroupValue(fs: seq<Form>, n: string, v: string): (r: seq<Form>)
    ensures |r| == |fs|
    ensures forall i :: 0 <= i < |fs| ==> r[i] == Assign(fs[i], n, v)
  {
    if fs == [] then []
    else SetGroupValue(fs[..|fs| - 1], n, v) + [Assign(fs[|fs| - 1], n, v)]
  }

  /** After setting group n to v, the group is the old group with value v. */
  lemma {:induction false} SetValueSyncsGroup(fs: seq<Form>, n: string, v: string)
    ensures WithName(SetGroupValue(fs, n, v), n) == SetGroupValue(WithName(fs, n), n, v)
    ensures forall g :: g in WithName(SetGroupValue(fs, n, v), n) ==> g.value == v
  {
    if fs != [] {
      var init := fs[..|fs| - 1];
      var after := SetGroupValue(fs, n, v);
      assert after[..|after| - 1] == SetGroupValue(init, n, v);
      SetValueSyncsGroup(init, n, v);
      if fs[|fs| - 1].name == n {
        var old_group := WithName(init, n);
        assert WithName(fs, n) == old_group + [fs[|fs| - 1]];
        var grown := WithName(fs, n);
        assert grown[..|grown| - 1] == old_group;
      }
    }
    var r := WithName(SetGroupValue(fs, n, v), n);
    forall g | g in r ensures g.value == v {
      var i :| 0 <= i < |r| && r[i] == g;
      assert g.name == n;
    }
  }

  /** Distinct names are not coupled: setting group n leaves group m as it was. */
  lemma {:induction false} SetValueIsolatesOtherGroups(fs: seq<Form>, n: string, v: string, m: string)
    requires m != n
    ensures WithName(SetGroupValue(fs, n, v), m) == WithName(fs, m)
  {
    if fs != [] {
      var after := SetGroupValue(fs, n, v);
      assert after[..|after| - 1] == SetGroupValue(fs[..|fs| - 1], n, v);
      SetValueIsolatesOtherGroups(fs[..|fs| - 1], n, v, m);
    }
  }

  /** Setting a button group to x checks exactly the siblings whose export
      value is x. */
  lemma ButtonGroupChecksMatching(fs: seq<Form>, n: string, x: string)
    ensures forall g :: g in WithName(SetGroupValue(fs, n, x), n) && g.formType == Button ==>
      (IsChecked(g) <==> g.exportValue == Some(x))
  {
    SetValueSyncsGroup(fs, n, x);
  }

  /** When no sibling exports x, setting the group to x checks none of them. */
  lemma NoMatchChecksNone(fs: seq<Form>, n: string, x: string)
    requires forall g :: g in fs && g.name == n ==> g.exportValue != Some(x)
    ensures forall g :: g in WithName(SetGroupValue(fs, n, x), n) ==> !IsChecked(g)
  {
    SetValueSyncsGroup(fs, n, x);
    var r := WithName(SetGroupValue(fs, n, x), n);
    FormsWithNameExactly(SetGroupValue(fs, n, x), n);
    forall g | g in r ensures !IsChecked(g) {
      var after := SetGroupValue(fs, n, x);
      var i :| 0 <= i < |after| && after[i] == g;
      assert fs[i] in fs;
    }
  }

  /** Every group holds one value. */
  ghost predicate Synchronized(fs: seq<Form>)
  {
    forall f, g :: f in fs && g in fs && f.name == g.name ==> f.value == g.value
  }

  /** Why button groups are mutually exclusive: in a synchronized
      container two checked buttons of one group share their export value,
      so among distinct export values at most one is checked. */
  lemma CheckedSiblingsShareExportValue(fs: seq<Form>, f: Form, g: Form)
    requires Synchronized(fs)
    requires f in fs && g in fs && f.name == g.name
    requires IsChecked(f) && IsChecked(g)
    ensures f.exportValue == g.exportValue
  {
  }

  /** setValue keeps a synchronized container synchronized. */
  lemma SetValueKeepsSynchronized(fs: seq<Form>, n: string, v: string)
    requires Synchronized(fs)
    ensures Synchronized(SetGroupValue(fs, n, v))
  {
    var r := SetGroupValue(fs, n, v);
    forall f, g | f in r && g in r && f.name == g.name ensures f.value == g.value {
      var i :| 0 <= i < |r| && r[i] == f;
      var j :| 0 <= j < |r| && r[j] == g;
      assert fs[i] in fs && fs[j] in fs;
    }
  }

  /** addForm: the new form joins its group, and other groups stay as they were. */
  lemma AddFormJoinsGroup(fs: seq<Form>, f: Form)
    ensures WithName(fs + [f], f.name) == WithName(fs, f.name) + [f]
    ensures forall m :: m != f.name ==> WithName(fs + [f], m) == WithName(fs, m)
    ensures f in WithName(fs + [f], f.name)
  {
    assert (fs + [f])[..|fs|] == fs;
  }

  /** The form addForm stores: f carrying the value its group already has,
      so that the group keeps one value; f itself when it starts a group. */
  function Joined(fs: seq<Form>, f: Form): (r: Form)
    ensures r.(value := f.value) == f
    ensures forall g :: g in fs && g.name == f.name ==> Synchronized(fs) ==> r.value == g.value
    ensures (forall g :: g in fs ==> g.name != f.name) ==> r == f
  {
    FormsWithNameExactly(fs, f.name);
    var group := WithName(fs, f.name);
    if group == [] then f else f.(value := group[0].value)
  }

  /** addForm keeps a synchronized container synchronized. */
  lemma AddFormKeepsSynchronized(fs: seq<Form>, f: Form)
    requires Synchronized(fs)
    ensures Synchronized(fs + [Joined(fs, f)])
  {
    var r := fs + [Joined(fs, f)];
    forall g, h | g in r && h in r && g.name == h.name ensures g.value == h.value {
      if g in fs && h in fs {
      } else if g in fs {
        assert h == Joined(fs, f);
      } else if h in fs {
        assert g == Joined(fs, f);
      }
    }
  }

  /** removeForm: the form is gone and every other form keeps its place count
      and its value. */
  lemma RemoveFormKeepsOthers(fs: seq<Form>, id: nat)
    ensures forall g :: g in Without(fs, id) ==> g.id != id
    ensures forall g: Form :: g.id != id ==> multiset(Without(fs, id))[g] == multiset(fs)[g]
    ensures Synchronized(fs) ==> Synchronized(Without(fs, id))
  {
    SelectExactly(fs, Except(id));
  }

  class FormContainer {
    /** The fields, in discovery order. */
    var forms: seq<Form>
    /** The script environment's document-level variables. */
    var documentValues: map<string, string>
    /** The parent PDFDocument (a weak back-reference). */
    var document: object?

    /** Same-named fields are one name/value pair. */
    ghost predicate Valid()
      reads this
    {
      Synchronized(forms)
    }

    /** initWithParentDocument: the fields found in the parent document; a
        field and its widgets share one value in the file, so the groups
        found there are synchronized. */
    constructor(parent: object?, discovered: seq<Form>)
      ensures forms == discovered && documentValues == map[] && document == parent
      ensures Synchronized(discovered) ==> Valid()
    {
      forms := discovered;
      documentValues := map[];
      document := parent;
    }

    /** The forms meeting c, collected in container order. */
    method Matching(c: Criterion) returns (r: seq<Form>)
      ensures r == Select(forms, c)
    {
      r := [];
      for i := 0 to |forms|
        invariant r == Select(forms[..i], c)
      {
        assert forms[..i + 1][..i] == forms[..i];
        if Matches(c, forms[i]) {
          r := r + [forms[i]];
        }
      }
      assert forms[..|forms|] == forms;
    }

    method FormsWithName(n: string) returns (r: seq<Form>)
      ensures r == WithName(forms, n)
      ensures forall g :: g in r <==> g in forms && g.name == n
    {
      r := Matching(ByName(n));
      FormsWithNameExactly(forms, n);
    }

    method FormsWithType(t: FormType) returns (r: seq<Form>)
      ensures r == WithType(forms, t)
      ensures forall g :: g in r <==> g in forms && g.formType == t
    {
      r := Matching(ByType(t));
      FormsWithTypeExactly(forms, t);
    }

    /** addForm: the form joins the end of the container, taking its group's value. */
    method AddForm(f: Form)
      modifies this
      ensures forms == old(forms) + [Joined(old(forms), f)]
      ensures old(Valid()) ==> Valid()
      ensures documentValues == old(documentValues) && document == old(document)
    {
      if Synchronized(forms) {
        AddFormKeepsSynchronized(forms, f);
      }
      var group := Matching(ByName(f.name));
      if group == [] {
        forms := forms + [f];
      } else {
        forms := forms + [f.(value := group[0].value)];
      }
    }

    method RemoveForm(f: Form)
      modifies this
      ensures forms == Without(old(forms), f.id)
      ensures old(Valid()) ==> Valid()
      ensures documentValues == old(documentValues) && document == old(document)
    {
      RemoveFormKeepsOthers(forms, f.id);
      forms := Without(forms, f.id);
    }

    /** setValue:ForFormWithName: every member of the group takes the value. */
    method SetValue(v: string, n: string)
      modifies this
      ensures forms == SetGroupValue(old(forms), n, v)
      ensures old(Valid()) ==> Valid()
      ensures documentValues == old(documentValues) && document == old(document)
    {
      if Synchronized(forms) {
        SetValueKeepsSynchronized(forms, n, v);
      }
      var i := 0;
      while i < |forms|
        invariant 0 <= i <= |forms| == |old(forms)|
        invariant forall j :: 0 <= j < i ==> forms[j] == Assign(old(forms)[j], n, v)
        invariant forall j :: i <= j < |forms| ==> forms[j] == old(forms)[j]
        invariant documentValues == old(documentValues) && document == old(document)
      {
        if forms[i].name == n {
          forms := forms[i := forms[i].(value := v)];
        }
        i := i + 1;
      }
    }

    method SetDocumentValue(v: string, k: string)
      modifies this
      ensures documentValues == old(documentValues)[k := v]
      ensures forms == old(forms) && document == old(document)
    {
      documentValues := documentValues[k := v];
    }

    /** getDocumentValueForKey: the value last set for k, nothing if none was. */
    method GetDocumentValueForKey(k: string) returns (r: Option<string>)
      ensures r.None? <==> k !in documentValues
      ensures r.Some? ==> r.value == documentValues[k]
    {
      if k in documentValues {
        r := Some(documentValues[k]);
      } else {
        r := None;
      }
    }
  }
}
