/** Board categories: the BoardCategory entity and BoardCategoryService over
    the board_categories table, whose name column is unique. */
module Categories {
  import opened Common

  datatype Category = Category(id: int, name: string, description: Option<string>)

  datatype CategoryError =
    | CategoryNotFound(id: int)
    | NameTaken(name: string)
      /** The delete broke a foreign key: posts.category_id and
          user_managed_categories.category_id have no cascade. */
    | CategoryStillReferenced

  function Names(m: map<int, Category>): set<string> {
    set id | id in m :: m[id].name
  }

  /** The unique constraint on the name column. */
  ghost predicate UniqueNames(m: map<int, Category>) {
    forall i, j :: i in m && j in m && i != j ==> m[i].name != m[j].name
  }

  /** The three boards `initDefaultCategories` creates in an empty table, with
      the ids the table hands out from `nextId` on. */
  function Defaults(nextId: int): (m: map<int, Category>)
    ensures m.Keys == {nextId, nextId + 1, nextId + 2}
    ensures forall id :: id in m ==> m[id].id == id
  {
    map[nextId := Category(nextId, "게시판 1", Some("첫 번째 게시판입니다.")),
        nextId + 1 := Category(nextId + 1, "게시판 2", Some("두 번째 게시판입니다.")),
        nextId + 2 := Category(nextId + 2, "게시판 3", Some("세 번째 게시판입니다."))]
  }

  /** The default boards are three, with three different names. */
  lemma {:induction false} DefaultsAreThreeBoards(nextId: int)
    ensures |Defaults(nextId)| == 3
    ensures UniqueNames(Defaults(nextId))
    ensures Names(Defaults(nextId)) == {"게시판 1", "게시판 2", "게시판 3"}
  {
    var m := Defaults(nextId);
    assert m.Keys == {nextId} + {nextId + 1} + {nextId + 2};
    assert |{nextId} + {nextId + 1}| == 2;
    assert "게시판 1" != "게시판 2" && "게시판 1" != "게시판 3" && "게시판 2" != "게시판 3" by {
      assert "게시판 1"[4] == '1' && "게시판 2"[4] == '2' && "게시판 3"[4] == '3';
    }
    assert "게시판 1" == m[nextId].name;
    assert "게시판 2" == m[nextId + 1].name;
    assert "게시판 3" == m[nextId + 2].name;
  }

  class BoardCategoryService {
    var categories: map<int, Category>
    var nextId: int

    ghost predicate Valid()
      reads this
    {
      && (forall id :: id in categories ==> categories[id].id == id && id < nextId)
      && UniqueNames(categories)
    }

    constructor ()
      ensures Valid() && categories == map[]
    {
      categories := map[];
      nextId := 1;
    }

    /** `findByName` */
    method FindByName(name: string) returns (r: Option<Category>)
      requires Valid()
      ensures r.Some? <==> name in Names(categories)
      ensures r.Some? ==> r.value.id in categories && categories[r.value.id] == r.value && r.value.name == name
    {
      if exists id :: id in categories && categories[id].name == name {
        var id :| id in categories && categories[id].name == name;
        r := Some(categories[id]);
      } else {
        r := None;
      }
    }

    /** `createCategory`: refused when the name is already taken, otherwise
        exactly one row is added, so names stay unique. */
    method CreateCategory(name: string, description: Option<string>) returns (r: Result<Category, CategoryError>)
      requires Valid()
      modifies this
      ensures Valid()
      ensures name in Names(old(categories)) ==> r == Failure(NameTaken(name)) && categories == old(categories)
      ensures name !in Names(old(categories)) ==>
                && r == Success(Category(old(nextId), name, description))
                && old(nextId) !in old(categories)
                && categories == old(categories)[old(nextId) := r.value]
    {
      var existing := FindByName(name);
      if existing.Some? {
        return Failure(NameTaken(name));
      }
      var category := Category(nextId, name, description);
      categories := categories[nextId := category];
      nextId := nextId + 1;
      r := Success(category);
    }

    /** `updateCategory`: an unknown id is refused first; then the new name is
        refused only when a different row holds it, so keeping one's own name is
        allowed. */
    method UpdateCategory(id: int, name: string, description: Option<string>) returns (r: Result<Category, CategoryError>)
      requires Valid()
      modifies this`categories
      ensures Valid()
      ensures id !in old(categories) ==> r == Failure(CategoryNotFound(id)) && categories == old(categories)
      ensures id in old(categories) && (exists j :: j in old(categories) && j != id && old(categories)[j].name == name) ==>
                r == Failure(NameTaken(name)) && categories == old(categories)
      ensures id in old(categories) && (forall j :: j in old(categories) && j != id ==> old(categories)[j].name != name) ==>
                && r == Success(Category(id, name, description))
                && categories == old(categories)[id := r.value]
    {
      if id !in categories {
        return Failure(CategoryNotFound(id));
      }
      var existing := FindByName(name);
      if existing.Some? && existing.value.id != id {
        return Failure(NameTaken(name));
      }
      var category := Category(id, name, description);
      categories := categories[id := category];
      r := Success(category);
    }

    /** `deleteCategory`: an unknown id is refused; otherwise only that row goes.
        `referenced` holds the category ids that posts or moderator assignments
        still point at, tables this service cannot see; the delete of such a
        board fails at commit and the board stays. */
    method DeleteCategory(id: int, referenced: set<int>) returns (r: Result<(), CategoryError>)
      requires Valid()
      modifies this`categories
      ensures Valid()
      ensures id !in old(categories) ==> r == Failure(CategoryNotFound(id)) && categories == old(categories)
      ensures id in old(categories) && id in referenced ==>
                r == Failure(CategoryStillReferenced) && categories == old(categories)
      ensures id in old(categories) && id !in referenced ==> r == Success(()) && categories == old(categories) - {id}
    {
      if id !in categories {
        return Failure(CategoryNotFound(id));
      }
      if id in referenced {
        return Failure(CategoryStillReferenced);
      }
      categories := categories - {id};
      r := Success(());
    }

    /** `initDefaultCategories`: three boards when the table is empty, nothing
        otherwise; after it the table is never empty, so a second call does nothing. */
    method InitDefaultCategories()
      requires Valid()
      modifies this
      ensures Valid()
      ensures old(categories) == map[] ==> categories == Defaults(old(nextId)) && nextId == old(nextId) + 3
      ensures old(categories) != map[] ==> categories == old(categories) && nextId == old(nextId)
      ensures categories != map[]
    {
      if |categories| == 0 {
        DefaultsAreThreeBoards(nextId);
        CreateDefaultCategory("게시판 1", "첫 번째 게시판입니다.");
        CreateDefaultCategory("게시판 2", "두 번째 게시판입니다.");
        CreateDefaultCategory("게시판 3", "세 번째 게시판입니다.");
      }
    }

    /** `createDefaultCategory`: a plain save, without the duplicate check;
        `initDefaultCategories` only calls it with names not yet in the table. */
    method CreateDefaultCategory(name: string, description: string)
      requires Valid() && name !in Names(categories)
      modifies this
      ensures Valid()
      ensures categories == old(categories)[old(nextId) := Category(old(nextId), name, Some(description))]
      ensures nextId == old(nextId) + 1
    {
      categories := categories[nextId := Category(nextId, name, Some(description))];
      nextId := nextId + 1;
    }
  }
}
