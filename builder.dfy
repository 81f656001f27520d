/** The functional-option bundle builder (bundle/bundle.go): New starts from
    an empty bundle and applies each option, in order, through a pointer. */
module Builder {
  import opened BundleModel

  /** The options: WithName overwrites the name, the others append their
      arguments to their own list. */
  datatype BuildOption =
    | WithName(name: string)
    | WithParameters(parameters: seq<Parameter>)
    | WithComponents(components: seq<Component>)
    | WithHooks(hooks: seq<Hook>)
    | WithBundles(bundles: seq<Bundle>)

  /** The bundle's zero value: empty name, empty lists. */
  const Empty: Bundle := Bundle("", [], [], [], [])

  // What each option contributes to each list.
  function ParametersOf(o: BuildOption): seq<Parameter> { if o.WithParameters? then o.parameters else [] }
  function ComponentsOf(o: BuildOption): seq<Component> { if o.WithComponents? then o.components else [] }
  function HooksOf(o: BuildOption): seq<Hook> { if o.WithHooks? then o.hooks else [] }
  function BundlesOf(o: BuildOption): seq<Bundle> { if o.WithBundles? then o.bundles else [] }

  /** option.apply on a bundle value: the option's own field is overwritten
      (name) or extended at the end (lists); every other field stays. */
  function ApplyOne(b: Bundle, o: BuildOption): (r: Bundle)
    ensures r.name == (if o.WithName? then o.name else b.name)
    ensures r.parameters == b.parameters + ParametersOf(o)
    ensures r.components == b.components + ComponentsOf(o)
    ensures r.hooks == b.hooks + HooksOf(o)
    ensures r.bundles == b.bundles + BundlesOf(o)
  {
    match o
    case WithName(n) => b.(name := n)
    case WithParameters(ps) => b.(parameters := b.parameters + ps)
    case WithComponents(cs) => b.(components := b.components + cs)
    case WithHooks(hs) => b.(hooks := b.hooks + hs)
    case WithBundles(bs) => b.(bundles := b.bundles + bs)
  }

  /** The options applied one after another to b. */
  function ApplyAll(b: Bundle, opts: seq<BuildOption>): Bundle
    decreases |opts|
  {
    if |opts| == 0 then b else ApplyOne(ApplyAll(b, opts[..|opts| - 1]), opts[|opts| - 1])
  }

  /** What New builds from opts. */
  function Build(opts: seq<BuildOption>): Bundle
  {
    ApplyAll(Empty, opts)
  }

  /** The pointer New allocates: a bundle record whose fields the options
      update in place. */
  class BundleBox {
    var name: string
    var parameters: seq<Parameter>
    var components: seq<Component>
    var hooks: seq<Hook>
    var bundles: seq<Bundle>

    /** &slice.Bundle{}: every field at its zero value. */
    constructor ()
      ensures Value() == Empty
    {
      name, parameters, components, hooks, bundles := "", [], [], [], [];
    }

    /** The record the box holds (New dereferences it on return). */
    function Value(): Bundle
      reads this
    {
      Bundle(name, parameters, components, hooks, bundles)
    }

    /** option.apply: one option updates the record in place. */
    method Apply(o: BuildOption)
      modifies this
      ensures Value() == ApplyOne(old(Value()), o)
    {
      match o
      case WithName(n) => name := n;
      case WithParameters(ps) => parameters := parameters + ps;
      case WithComponents(cs) => components := components + cs;
      case WithHooks(hs) => hooks := hooks + hs;
      case WithBundles(bs) => bundles := bundles + bs;
    }
  }

  /** New: applies the options in argument order to a fresh empty bundle and
      returns the resulting value. */
  method New(options: seq<BuildOption>) returns (b: Bundle)
    ensures b == Build(options)
    ensures b.name == LastName(options)
    ensures b.parameters == Collect(options, ParametersOf) && b.components == Collect(options, ComponentsOf)
    ensures b.hooks == Collect(options, HooksOf) && b.bundles == Collect(options, BundlesOf)
  {
    var box := new BundleBox();
    for i := 0 to |options|
      invariant box.Value() == Build(options[..i])
    {
      assert options[..i + 1][..i] == options[..i];
      box.Apply(options[i]);
    }
    assert options[..|options|] == options;
    b := box.Value();
    BuildFields(options);
  }

  // ---------------------------------------------------------------------------
  // Reference definitions, read front to back
  // ---------------------------------------------------------------------------

  /** The name of the last WithName among opts, or "" when there is none. */
  function LastName(opts: seq<BuildOption>): string
    decreases |opts|
  {
    if |opts| == 0 then ""
    else if HasName(opts[1..]) then LastName(opts[1..])
    else if opts[0].WithName? then opts[0].name
    else ""
  }

  predicate HasName(opts: seq<BuildOption>)
  {
    exists i :: 0 <= i < |opts| && opts[i].WithName?
  }

  /** The arguments of the options that feed one list, concatenated in
      argument order. */
  function Collect<T>(opts: seq<BuildOption>, f: BuildOption -> seq<T>): seq<T>
    decreases |opts|
  {
    if |opts| == 0 then [] else f(opts[0]) + Collect(opts[1..], f)
  }

  lemma {:induction false} CollectAppend<T>(a: seq<BuildOption>, b: seq<BuildOption>, f: BuildOption -> seq<T>)
    decreases |a|
    ensures Collect(a + b, f) == Collect(a, f) + Collect(b, f)
  {
    if |a| == 0 {
      assert a + b == b;
    } else {
      assert (a + b)[1..] == a[1..] + b;
      CollectAppend(a[1..], b, f);
    }
  }

  lemma {:induction false} LastNameAppend(a: seq<BuildOption>, o: BuildOption)
    decreases |a|
    ensures LastName(a + [o]) == if o.WithName? then o.name else LastName(a)
  {
    if |a| == 0 {
      assert [o][1..] == [];
    } else {
      assert (a + [o])[1..] == a[1..] + [o];
      LastNameAppend(a[1..], o);
      if o.WithName? {
        assert (a[1..] + [o])[|a| - 1].WithName?;
      } else {
        if HasName(a[1..] + [o]) {
          var i :| 0 <= i < |a[1..] + [o]| && (a[1..] + [o])[i].WithName?;
          assert a[1..][i].WithName?;
        }
        if HasName(a[1..]) {
          var i :| 0 <= i < |a[1..]| && a[1..][i].WithName?;
          assert (a[1..] + [o])[i].WithName?;
        }
      }
    }
  }

  /** The built bundle's name is the last WithName's, or "" without one;
      each list is the arguments of its own options, earlier options
      first. */
  lemma {:induction false} BuildFields(opts: seq<BuildOption>)
    decreases |opts|
    ensures Build(opts).name == LastName(opts)
    ensures Build(opts).parameters == Collect(opts, ParametersOf)
    ensures Build(opts).components == Collect(opts, ComponentsOf)
    ensures Build(opts).hooks == Collect(opts, HooksOf)
    ensures Build(opts).bundles == Collect(opts, BundlesOf)
  {
    if |opts| > 0 {
      var init, o := opts[..|opts| - 1], opts[|opts| - 1];
      assert opts == init + [o];
      BuildFields(init);
      LastNameAppend(init, o);
      assert [o][1..] == [];
      CollectAppend(init, [o], ParametersOf);
      CollectAppend(init, [o], ComponentsOf);
      CollectAppend(init, [o], HooksOf);
      CollectAppend(init, [o], BundlesOf);
    }
  }

  /** LastName characterised by position: the name of a WithName with no
      WithName after it. */
  lemma {:induction false} LastNameIsLast(opts: seq<BuildOption>, i: nat)
    requires i < |opts| && opts[i].WithName?
    requires forall j :: i < j < |opts| ==> !opts[j].WithName?
    decreases |opts|
    ensures LastName(opts) == opts[i].name
  {
    if i > 0 {
      LastNameIsLast(opts[1..], i - 1);
      assert opts[1..][i - 1].WithName?;
    }
  }

  lemma {:induction false} NoNameIsEmpty(opts: seq<BuildOption>)
    requires !HasName(opts)
    decreases |opts|
    ensures LastName(opts) == ""
  {
    if |opts| > 0 {
      assert !opts[0].WithName?;
    }
  }

  /** Applying a + b is applying a, then b. */
  lemma {:induction false} ApplyAllAppend(b: Bundle, x: seq<BuildOption>, y: seq<BuildOption>)
    decreases |y|
    ensures ApplyAll(b, x + y) == ApplyAll(ApplyAll(b, x), y)
  {
    if |y| == 0 {
      assert x + y == x;
    } else {
      assert (x + y)[..|x + y| - 1] == x + y[..|y| - 1];
      ApplyAllAppend(b, x, y[..|y| - 1]);
    }
  }

  /** A later WithName overrides an earlier one, whatever lies between
      them. */
  lemma LaterNameWins(opts: seq<BuildOption>, n1: string, n2: string)
    ensures Build([WithName(n1)] + opts + [WithName(n2)]).name == n2
  {
    var all := [WithName(n1)] + opts + [WithName(n2)];
    assert all[..|all| - 1] == [WithName(n1)] + opts;
  }

  /** Options that do not touch a field leave it at its value before
      them. */
  lemma {:induction false} OtherOptionsKeepName(b: Bundle, opts: seq<BuildOption>)
    requires !HasName(opts)
    decreases |opts|
    ensures ApplyAll(b, opts).name == b.name
  {
    if |opts| > 0 {
      var init := opts[..|opts| - 1];
      OtherOptionsKeepName(b, init);
      assert !opts[|opts| - 1].WithName?;
    }
  }

  /** New with no options returns the zero bundle; with a name and a list it
      returns them as given. */
  method NewExamples(h: Hook, child: Bundle) returns (empty: Bundle, named: Bundle)
    ensures empty == Empty
    ensures named == Bundle("second", [], [], [h, h], [child])
  {
    empty := New([]);
    var opts := [WithName("first"), WithHooks([h]), WithBundles([child]), WithName("second"), WithHooks([h])];
    named := New(opts);
    LastNameIsLast(opts, 3);
    assert opts[1..] == [WithHooks([h]), WithBundles([child]), WithName("second"), WithHooks([h])];
    assert opts[1..][1..] == [WithBundles([child]), WithName("second"), WithHooks([h])];
    assert opts[1..][1..][1..] == [WithName("second"), WithHooks([h])];
    assert opts[1..][1..][1..][1..] == [WithHooks([h])];
    assert opts[1..][1..][1..][1..][1..] == [];
    var o4 := opts[1..][1..][1..][1..];
    var o3 := opts[1..][1..][1..];
    var o2 := opts[1..][1..];
    var o1 := opts[1..];
    assert Collect(o4, HooksOf) == [h] && Collect(o4, BundlesOf) == [];
    assert Collect(o3, HooksOf) == [h] && Collect(o3, BundlesOf) == [];
    assert Collect(o2, HooksOf) == [h] && Collect(o2, BundlesOf) == [child];
    assert Collect(o1, HooksOf) == [h, h] && Collect(o1, BundlesOf) == [child];
    assert Collect(o4, ParametersOf) == [] && Collect(o3, ParametersOf) == [];
    assert Collect(o2, ParametersOf) == [] && Collect(o1, ParametersOf) == [];
    assert Collect(o4, ComponentsOf) == [] && Collect(o3, ComponentsOf) == [];
    assert Collect(o2, ComponentsOf) == [] && Collect(o1, ComponentsOf) == [];
  }
}
