/** The "Archived" menu: four checkboxes, one per kind of item, that say whether
    archived items of that kind are shown. */
module ArchiveMenu {

  /** The store's `archived` record. */
  datatype Flags = Flags(folders: bool, boards: bool, sections: bool, tasks: bool)

  /** The `name` of a checkbox. Only these four names are ever rendered. */
  datatype Kind = FoldersKind | BoardsKind | SectionsKind | TasksKind

  function Get(f: Flags, k: Kind): bool
  {
    match k
    case FoldersKind => f.folders
    case BoardsKind => f.boards
    case SectionsKind => f.sections
    case TasksKind => f.tasks
  }

  /** handleToggle: `{...flags, [name]: checked}`. The named flag takes the checked value
      and the other three keep theirs. */
  function HandleToggle(f: Flags, name: Kind, checked: bool): (r: Flags)
    ensures Get(r, name) == checked
    ensures forall k :: k != name ==> Get(r, k) == Get(f, k)
  {
    match name
    case FoldersKind => f.(folders := checked)
    case BoardsKind => f.(boards := checked)
    case SectionsKind => f.(sections := checked)
    case TasksKind => f.(tasks := checked)
  }

  /** Two records that agree on every flag are the same record. */
  lemma FlagsExtensional(a: Flags, b: Flags)
    requires forall k :: Get(a, k) == Get(b, k)
    ensures a == b
  {
    assert Get(a, FoldersKind) == Get(b, FoldersKind);
    assert Get(a, BoardsKind) == Get(b, BoardsKind);
    assert Get(a, SectionsKind) == Get(b, SectionsKind);
    assert Get(a, TasksKind) == Get(b, TasksKind);
  }

  /** The same event applied twice gives the record it gives once; an event that sets
      a flag to its current value changes nothing. */
  lemma ToggleIdempotent(f: Flags, name: Kind, checked: bool)
    ensures HandleToggle(HandleToggle(f, name, checked), name, checked) == HandleToggle(f, name, checked)
    ensures checked == Get(f, name) ==> HandleToggle(f, name, checked) == f
  {
    var once := HandleToggle(f, name, checked);
    FlagsExtensional(HandleToggle(once, name, checked), once);
    if checked == Get(f, name) {
      FlagsExtensional(once, f);
    }
  }
}
