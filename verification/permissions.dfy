/**
 * The op-level permission groups (`OpLevelCollection`) and the subject data
 * of a player that may have at most one op-level group as its parent
 * (`SingleParentMemorySubjectData`). Subjects are values: the collection
 * holds one subject per level, so comparing them by value is comparing the
 * instances. The global context set is the empty set.
 */
module Permissions {
  import opened Wrappers

  datatype Context = Context(key: string, value: string)

  type Contexts = set<Context>

  const GLOBAL_CONTEXT: Contexts := {}

  datatype Subject = OpLevelSubject(level: int) | OtherSubject(id: nat)

  datatype PermissionError = IllegalArgument(message: string)

  /** Decimal digits of a natural number, as `String.valueOf`. */
  function NatString(n: nat): (s: string)
    ensures |s| >= 1 && forall i :: 0 <= i < |s| ==> '0' <= s[i] <= '9'
    ensures n < 10 ==> s == [('0' as int + n) as char]
  {
    if n < 10 then [('0' as int + n) as char] else NatString(n / 10) + NatString(n % 10)
  }

  function IntString(i: int): string {
    if i < 0 then "-" + NatString(-i) else NatString(i)
  }

  /** `getIdentifier` of an op-level subject. */
  function Identifier(level: int): string {
    "op_" + IntString(level)
  }

  /** The level `op_<level>` names, for the five registered levels. */
  function LevelOf(id: string): (r: Option<int>)
    ensures r.Some? ==> 0 <= r.value <= 4
  {
    if |id| == 4 && id[..3] == "op_" && '0' <= id[3] <= '4' then Some(id[3] as int - '0' as int) else None
  }

  /** `op_0` .. `op_4` name exactly the levels 0 .. 4, and nothing else is such a name. */
  lemma LevelNames(id: string, level: int)
    ensures 0 <= level <= 4 ==> LevelOf(Identifier(level)) == Some(level)
    ensures LevelOf(id) == Some(level) <==> 0 <= level <= 4 && id == Identifier(level)
  {
    if 0 <= level <= 4 {
      assert Identifier(level) == "op_" + [('0' as int + level) as char];
      assert Identifier(level)[..3] == "op_";
    }
    if LevelOf(id) == Some(level) {
      assert id == id[..3] + [id[3]];
    }
  }

  /** `hasRegistered`: exactly the five level names. */
  function HasRegistered(id: string): (r: bool)
    ensures r <==> exists level :: 0 <= level <= 4 && id == Identifier(level)
  {
    if LevelOf(id).Some? then
      LevelNames(id, LevelOf(id).value);
      true
    else
      assert forall level :: 0 <= level <= 4 ==> LevelOf(Identifier(level)) == Some(level) by {
        forall level | 0 <= level <= 4
          ensures LevelOf(Identifier(level)) == Some(level)
        {
          LevelNames(id, level);
        }
      }
      false
  }

  /** `get`: the subject registered under the name; anything else is an illegal argument. */
  function Get(id: string): (r: Result<Subject, PermissionError>)
    ensures r.Ok? <==> HasRegistered(id)
    ensures r.Ok? ==> r.value.OpLevelSubject? && Identifier(r.value.level) == id
    ensures r.Err? ==> r.error == IllegalArgument(id + " is not a valid op level group name (op_{0,4})")
  {
    match LevelOf(id)
    case Some(level) =>
      LevelNames(id, level);
      Ok(OpLevelSubject(level))
    case None =>
      Err(IllegalArgument(id + " is not a valid op level group name (op_{0,4})"))
  }

  /**
   * The parents of the op-level subject at `level`: none outside the global
   * context; otherwise the group one level below first (from level 1 up),
   * then the parents stored in its own data (`base`).
   */
  function OpLevelParents(level: int, contexts: Contexts, base: seq<Subject>, groupFor: int -> Subject): (r: seq<Subject>)
    ensures contexts != GLOBAL_CONTEXT ==> r == []
    ensures contexts == GLOBAL_CONTEXT && level == 0 ==> r == base
    ensures contexts == GLOBAL_CONTEXT && level != 0 ==> |r| == |base| + 1 && r[0] == groupFor(level - 1) && r[1..] == base
  {
    if contexts != GLOBAL_CONTEXT then []
    else if level == 0 then base
    else [groupFor(level - 1)] + base
  }

  /** `getOption` of an op-level subject: op groups carry no options. */
  function OpLevelOption(level: int, contexts: Contexts, key: string): (r: Option<string>)
    ensures r.None?
  {
    None
  }

  /** The group the permission service hands out for an op level: the collection's own subject. */
  function GroupForOpLevel(level: int): Subject {
    match Get(Identifier(level))
    case Ok(s) => s
    case Err(_) => OtherSubject(0)
  }

  /** With the collection's own groups, the parent chain of level n lists level n-1 first. */
  lemma ParentChain(level: int)
    requires 1 <= level <= 4
    ensures OpLevelParents(level, GLOBAL_CONTEXT, [], GroupForOpLevel) == [OpLevelSubject(level - 1)]
  {
    LevelNames(Identifier(level - 1), level - 1);
  }

  /** `SingleParentMemorySubjectData`: at most one parent subject. */
  datatype ParentData = ParentData(parent: Option<Subject>)

  /** `getParents`: the parent, in the global context only. */
  function GetParents(d: ParentData, contexts: Contexts): (r: seq<Subject>)
    ensures |r| <= 1
    ensures forall p :: r == [p] <==> contexts == GLOBAL_CONTEXT && d.parent == Some(p)
  {
    if contexts == GLOBAL_CONTEXT && d.parent.Some? then [d.parent.value] else []
  }

  /** `setParent`: always succeeds and replaces the parent. */
  function SetParent(d: ParentData, parent: Option<Subject>): (r: (bool, ParentData))
    ensures r.0 && r.1.parent == parent
  {
    (true, ParentData(parent))
  }

  /**
   * `addParent`: only an op-level subject, only in the global context; it
   * then replaces any previous parent. Otherwise nothing changes.
   */
  function AddParent(d: ParentData, contexts: Contexts, parent: Subject): (r: (bool, ParentData))
    ensures r.0 <==> parent.OpLevelSubject? && contexts == GLOBAL_CONTEXT
    ensures r.0 ==> GetParents(r.1, GLOBAL_CONTEXT) == [parent]
    ensures !r.0 ==> r.1 == d
  {
    if !parent.OpLevelSubject? then (false, d)
    else if contexts != GLOBAL_CONTEXT then (false, d)
    else SetParent(d, Some(parent))
  }

  /** `removeParent`: clears exactly when the argument is the current parent; contexts are ignored. */
  function RemoveParent(d: ParentData, contexts: Contexts, parent: Option<Subject>): (r: (bool, ParentData))
    ensures r.0 <==> parent == d.parent
    ensures r.0 ==> forall c :: GetParents(r.1, c) == []
    ensures !r.0 ==> r.1 == d
  {
    if parent == d.parent then SetParent(d, None) else (false, d)
  }

  /** `clearParents()`: always clears and reports a change. */
  function ClearParents(d: ParentData): (r: (bool, ParentData))
    ensures r.0 && r.1.parent.None?
  {
    RemoveParent(d, GLOBAL_CONTEXT, d.parent)
  }

  /** `clearParents(contexts)`: clears only in the global context. */
  function ClearParentsIn(d: ParentData, contexts: Contexts): (r: (bool, ParentData))
    ensures r.0 <==> contexts == GLOBAL_CONTEXT
    ensures r.0 ==> r.1.parent.None?
    ensures !r.0 ==> r.1 == d
  {
    if contexts == GLOBAL_CONTEXT then ClearParents(d) else (false, d)
  }

  /** Adding then removing the same op group leaves no parent; a second add replaces the first. */
  lemma AddRemove(d: ParentData, a: Subject, b: Subject)
    requires a.OpLevelSubject? && b.OpLevelSubject?
    ensures RemoveParent(AddParent(d, GLOBAL_CONTEXT, a).1, GLOBAL_CONTEXT, Some(a)).1.parent.None?
    ensures GetParents(AddParent(AddParent(d, GLOBAL_CONTEXT, a).1, GLOBAL_CONTEXT, b).1, GLOBAL_CONTEXT) == [b]
  {
  }
}
