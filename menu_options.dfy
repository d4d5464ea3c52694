/** `MenuOptions`: the nine menu entries and the lookup of an entry by its id. */
module Menu {
  import opened Wrappers

  datatype MenuOption =
    | NoOption
    | ListSecrets
    | AddSecret
    | ShowSecret
    | UpdateSecret
    | RemoveSecret
    | RenameSecret
    | SearchSecret
    | Quit
  {
    function Id(): int
    {
      match this
      case NoOption => 0
      case ListSecrets => 1
      case AddSecret => 2
      case ShowSecret => 3
      case UpdateSecret => 4
      case RemoveSecret => 5
      case RenameSecret => 6
      case SearchSecret => 7
      case Quit => 8
    }

    function Label(): string
    {
      match this
      case NoOption => ""
      case ListSecrets => "List all available secrets"
      case AddSecret => "Add secret"
      case ShowSecret => "Show secret"
      case UpdateSecret => "Update secret"
      case RemoveSecret => "Remove secret"
      case RenameSecret => "Rename secret"
      case SearchSecret => "Search secrets"
      case Quit => "Quit"
    }
  }

  /** `values()`: every constant, in declaration order. */
  function Values(): (vs: seq<MenuOption>)
    ensures |vs| == 9
    ensures forall i :: 0 <= i < |vs| ==> vs[i].Id() == i
  {
    [NoOption, ListSecrets, AddSecret, ShowSecret, UpdateSecret, RemoveSecret, RenameSecret, SearchSecret, Quit]
  }

  /** `id` is present and equals the id of `m`; a null id equals none. */
  predicate HasId(m: MenuOption, id: Option<int>)
  {
    id.Some? && m.Id() == id.value
  }

  /** The first of `vs` carrying `id`, or `NONE` when none does. */
  function FirstWithId(vs: seq<MenuOption>, id: Option<int>): (m: MenuOption)
    ensures (exists i :: 0 <= i < |vs| && HasId(vs[i], id)) ==> m in vs && HasId(m, id)
    ensures (forall i :: 0 <= i < |vs| ==> !HasId(vs[i], id)) ==> m == NoOption
  {
    if vs == [] then NoOption
    else if HasId(vs[0], id) then vs[0]
    else
      assert forall i :: 1 <= i < |vs| ==> vs[i] == vs[1..][i - 1];
      FirstWithId(vs[1..], id)
  }

  /** `from`: scans the constants in declaration order and returns the first whose id equals `id`. */
  method From(id: Option<int>) returns (mo: MenuOption)
    ensures mo == FirstWithId(Values(), id)
  {
    var vs := Values();
    for i := 0 to |vs|
      invariant FirstWithId(vs, id) == FirstWithId(vs[i..], id)
    {
      if HasId(vs[i], id) {
        return vs[i];
      }
      assert vs[i..][1..] == vs[i + 1..];
    }
    return NoOption;
  }

  /** Every constant is listed, at the position of its id. */
  lemma ValuesComplete(m: MenuOption)
    ensures 0 <= m.Id() < |Values()| && Values()[m.Id()] == m
  {
  }

  /** The constant with id `i`, for `i` in 0..8; `NONE` for any other id and for null. */
  lemma {:induction false} FromRange(id: Option<int>)
    ensures id.Some? && 0 <= id.value <= 8 ==> FirstWithId(Values(), id).Id() == id.value
    ensures !(id.Some? && 0 <= id.value <= 8) ==> FirstWithId(Values(), id) == NoOption
  {
    var vs := Values();
    if id.Some? && 0 <= id.value <= 8 {
      assert HasId(vs[id.value], id);
    } else {
      forall i | 0 <= i < |vs| ensures !HasId(vs[i], id) {
        assert 0 <= vs[i].Id() <= 8;
      }
    }
  }

  /** Looking up the id of any constant finds that constant. */
  lemma FromId(m: MenuOption)
    ensures FirstWithId(Values(), Some(m.Id())) == m
  {
    var vs := Values();
    ValuesComplete(m);
    assert HasId(vs[m.Id()], Some(m.Id()));
    var r := FirstWithId(vs, Some(m.Id()));
    ValuesComplete(r);
  }
}
