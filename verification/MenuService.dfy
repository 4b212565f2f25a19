/** The menu service object, proved against `MenuTable`. */
module MenuService {
  import opened Common
  import opened MenuTable

  class MenuService {
    var rows: map<int, Menu>
    var nextId: int

    constructor ()
      ensures Contents() == Table(map[], 1) && Good(Contents())
    {
      rows, nextId := map[], 1;
      new;
      assert Ranked(Contents(), map[]);
    }

    function Contents(): Table
      reads this
    {
      Table(rows, nextId)
    }

    /** Walks from the new parent to the top, looking for the menu itself. */
    method EnsureNotOwnDescendant(id: int, newParent: int) returns (r: Result<Unit, MenuError>)
      requires Forest(Contents()) && Live(Contents(), newParent)
      ensures r.Err? <==> Above(Contents(), newParent, id)
      ensures r.Err? ==> r.error == if id == newParent then OwnParent else BelowItself
    {
      if id == newParent {
        return Err(OwnParent);
      }
      var cursor := Some(newParent);
      while cursor.Some?
        invariant cursor.Some? ==> Live(Contents(), cursor.value)
        invariant Above(Contents(), newParent, id) <==>
                  (cursor.Some? && Above(Contents(), cursor.value, id))
        decreases if cursor.Some? then RankOf(Contents())[cursor.value] + 1 else 0
      {
        if cursor.value == id {
          return Err(BelowItself);
        }
        if cursor.value !in rows || rows[cursor.value].deleted {
          return Ok(Unit.Unit);
        }
        cursor := rows[cursor.value].parent;
      }
      return Ok(Unit.Unit);
    }

    method EnsureParentExists(parent: Option<int>) returns (r: Result<Unit, MenuError>)
      ensures r == if parent.Some? && !Live(Contents(), parent.value) then Err(ParentNotFound) else Ok(Unit.Unit)
    {
      if parent.None? {
        return Ok(Unit.Unit);
      }
      if !Live(Contents(), parent.value) {
        return Err(ParentNotFound);
      }
      return Ok(Unit.Unit);
    }

    method EnsureNameAvailable(parent: Option<int>, name: Option<string>) returns (r: Result<Unit, MenuError>)
      ensures r == if NameExists(Contents(), parent, name) then Err(NameTaken) else Ok(Unit.Unit)
    {
      if NameExists(Contents(), parent, name) {
        return Err(NameTaken);
      }
      return Ok(Unit.Unit);
    }

    method Create(parent: Option<int>, name: string) returns (r: Result<int, MenuError>)
      requires Good(Contents())
      modifies this
      ensures (Contents(), r) == Apply(old(Contents()), Op.Create(parent, name))
      ensures Good(Contents())
    {
      ApplyKeepsGood(Contents(), Op.Create(parent, name));
      var p := EnsureParentExists(parent);
      if p.Err? {
        return Err(p.error);
      }
      var n := EnsureNameAvailable(parent, Some(name));
      if n.Err? {
        return Err(n.error);
      }
      var id := nextId;
      rows, nextId := rows[id := Menu(name, parent, false)], nextId + 1;
      return Ok(id);
    }

    method Update(id: int, changes: Changes) returns (r: Result<int, MenuError>)
      requires Good(Contents())
      modifies this
      ensures (Contents(), r) == Apply(old(Contents()), Op.Update(id, changes))
      ensures Good(Contents())
    {
      ApplyKeepsGood(Contents(), Op.Update(id, changes));
      if !Live(Contents(), id) {
        return Err(MenuNotFound);
      }
      var menu := rows[id];
      var newParent := if changes.parent.Some? then changes.parent.value else menu.parent;
      var newName := if changes.name.Some? then changes.name.value else Some(menu.name);
      if changes.parent.Some? && newParent.Some? {
        var p := EnsureParentExists(newParent);
        if p.Err? {
          return Err(p.error);
        }
        var d := EnsureNotOwnDescendant(id, newParent.value);
        if d.Err? {
          return Err(d.error);
        }
      }
      if newParent != menu.parent || newName != Some(menu.name) {
        var n := EnsureNameAvailable(newParent, newName);
        if n.Err? {
          return Err(n.error);
        }
      }
      if newName.None? {
        return Err(NameMissing);
      }
      if changes.name.Some? {
        rows := rows[id := rows[id].(name := newName.value)];
      }
      if changes.parent.Some? {
        rows := rows[id := rows[id].(parent := newParent)];
      }
      assert rows == old(rows)[id := menu.(parent := newParent, name := newName.value)];
      return Ok(id);
    }

    method Delete(id: int) returns (r: Result<int, MenuError>)
      requires Good(Contents())
      modifies this
      ensures (Contents(), r) == Apply(old(Contents()), Op.Delete(id))
      ensures Good(Contents())
    {
      ApplyKeepsGood(Contents(), Op.Delete(id));
      if !Live(Contents(), id) {
        return Err(MenuNotFound);
      }
      if HasLiveChild(Contents(), id) {
        return Err(HasChildren);
      }
      rows := rows[id := rows[id].(deleted := true)];
      return Ok(id);
    }
  }
}
