/**
 user.py: users with mutable sets of students and coaches, kept symmetric by
 add_students / add_coaches, and the class-wide registry of uids in use.
 */
module Users {
  import opened Wrappers
  import opened Graphs

  /** What add_students / add_coaches accept: one user, or a collection of them. */
  datatype Arg = One(user: User) | Many(users: seq<User>)

  /** _make_iterable: a single user becomes a one-element tuple; a collection is
      used as it is. */
  function MakeIterable(a: Arg): (r: seq<User>)
    ensures a.One? ==> r == [a.user]
    ensures a.Many? ==> r == a.users
  {
    match a
    case One(u) => [u]
    case Many(us) => us
  }

  /** Every element of a collection argument is a member of the iterable, and a single user is. */
  lemma MakeIterableMembers(a: Arg, u: User)
    ensures u in MakeIterable(a) <==> (a.One? && u == a.user) || (a.Many? && u in a.users)
  {
  }

  ghost function Elements(a: Arg): set<User>
  {
    set u | u in MakeIterable(a)
  }

  class User {
    const uid: int
    var students: set<User>
    var coaches: set<User>

    /** The fields of a new user; the uid check lives in Registry.NewUser. */
    constructor (uid: int)
      ensures this.uid == uid && students == {} && coaches == {}
    {
      this.uid := uid;
      students := {};
      coaches := {};
    }

    /** How many of the given users do not list this user as a coach yet. */
    ghost function MissingCoachLinks(a: Arg): nat
      reads Elements(a)
    {
      |set s | s in Elements(a) && this !in s.coaches|
    }

    /** How many of the given users do not list this user as a student yet. */
    ghost function MissingStudentLinks(a: Arg): nat
      reads Elements(a)
    {
      |set c | c in Elements(a) && this !in c.students|
    }

    /**
     add_students: add the students and register this user as a coach of each
     of them. Each student that does not list this user yet is told through
     add_coaches, whose call back finds the link already in place.
     */
    method AddStudents(students: Arg)
      modifies {this} + Elements(students)
      decreases MissingCoachLinks(students), 1
      ensures this.students == old(this.students) + Elements(students)
      ensures forall u :: u in Elements(students) ==> u.coaches == old(u.coaches) + {this}
      ensures forall u :: u in Elements(students) && u != this ==> u.students == old(u.students)
      ensures this !in Elements(students) ==> this.coaches == old(this.coaches)
    {
      var ss := MakeIterable(students);
      ghost var elems := Elements(students);
      ghost var missing := set s | s in Elements(students) && this !in s.coaches;
      this.students := this.students + set s | s in ss;
      for i := 0 to |ss|
        invariant this.students == old(this.students) + elems
        invariant forall k :: 0 <= k < i ==> ss[k].coaches == old(ss[k].coaches) + {this}
        invariant forall u :: u in elems ==> old(u.coaches) <= u.coaches <= old(u.coaches) + {this}
        invariant forall u :: u in elems && u != this ==> u.students == old(u.students)
        invariant this !in elems ==> this.coaches == old(this.coaches)
      {
        var student := ss[i];
        assert this !in student.coaches ==> student in missing;
        TellStudent(student);
      }
    }

    /** One turn of add_students' loop: a student that does not list this user
        as a coach yet is told so through add_coaches. */
    method TellStudent(student: User)
      requires student in this.students
      modifies this, student
      decreases if this in student.coaches then 0 else 1, 0
      ensures student.coaches == old(student.coaches) + {this}
      ensures this.students == old(this.students)
      ensures student != this ==> student.students == old(student.students) && this.coaches == old(this.coaches)
    {
      if this !in student.coaches {
        OnlyThis(this);
        assert student.MissingStudentLinks(One(this)) == 0 by {
          assert (set c | c in Elements(One(this)) && student !in c.students) == {};
        }
        student.AddCoaches(One(this));
      }
    }

    /**
     add_coaches: add the coaches and register this user as a student of each
     of them, through add_students where the link is missing.
     */
    method AddCoaches(coaches: Arg)
      modifies {this} + Elements(coaches)
      decreases MissingStudentLinks(coaches), 1
      ensures this.coaches == old(this.coaches) + Elements(coaches)
      ensures forall u :: u in Elements(coaches) ==> u.students == old(u.students) + {this}
      ensures forall u :: u in Elements(coaches) && u != this ==> u.coaches == old(u.coaches)
      ensures this !in Elements(coaches) ==> this.students == old(this.students)
    {
      var cs := MakeIterable(coaches);
      ghost var missing := set c | c in Elements(coaches) && this !in c.students;
      this.coaches := this.coaches + set c | c in cs;
      for i := 0 to |cs|
        invariant this.coaches == old(this.coaches) + Elements(coaches)
        invariant forall k :: 0 <= k < i ==> cs[k].students == old(cs[k].students) + {this}
        invariant forall u :: u in Elements(coaches) ==> old(u.students) <= u.students <= old(u.students) + {this}
        invariant forall u :: u in Elements(coaches) && u != this ==> u.coaches == old(u.coaches)
        invariant this !in Elements(coaches) ==> this.students == old(this.students)
      {
        var coach := cs[i];
        assert this !in coach.students ==> coach in missing;
        TellCoach(coach);
      }
    }

    /** One turn of add_coaches' loop: a coach that does not list this user as
        a student yet is told so through add_students. */
    method TellCoach(coach: User)
      requires coach in this.coaches
      modifies this, coach
      decreases if this in coach.students then 0 else 1, 0
      ensures coach.students == old(coach.students) + {this}
      ensures this.coaches == old(this.coaches)
      ensures coach != this ==> coach.coaches == old(coach.coaches) && this.students == old(this.students)
    {
      if this !in coach.students {
        OnlyThis(this);
        assert coach.MissingCoachLinks(One(this)) == 0 by {
          assert (set s | s in Elements(One(this)) && coach !in s.coaches) == {};
        }
        coach.AddStudents(One(this));
      }
    }

    function GetStudents(): (r: set<User>)
      reads this
      ensures r == students
    {
      students
    }

    function GetCoaches(): (r: set<User>)
      reads this
      ensures r == coaches
    {
      coaches
    }

    function GetUid(): (r: int)
      ensures r == uid
    {
      uid
    }
  }

  lemma OnlyThis(u: User)
    ensures Elements(One(u)) == {u}
  {
  }

  /** Within a population, b is a student of a exactly when a is a coach of b. */
  ghost predicate LinksSymmetric(pop: set<User>)
    reads pop
  {
    forall a, b :: a in pop && b in pop ==> (b in a.students <==> a in b.coaches)
  }

  /** Every student and coach of a member is a member. */
  ghost predicate LinksClosed(pop: set<User>)
    reads pop
  {
    forall a :: a in pop ==> a.students <= pop && a.coaches <= pop
  }

  /** No two members share a uid. */
  ghost predicate UidsUnique(pop: set<User>)
  {
    forall a, b :: a in pop && b in pop && a.uid == b.uid ==> a == b
  }

  /** add_students on members of a symmetric population leaves it symmetric. */
  method AddStudentsKeepsSymmetry(ghost pop: set<User>, coach: User, students: Arg)
    requires coach in pop && Elements(students) <= pop && LinksSymmetric(pop)
    modifies pop
    ensures LinksSymmetric(pop)
  {
    coach.AddStudents(students);
  }

  /** add_coaches on members of a symmetric population leaves it symmetric. */
  method AddCoachesKeepsSymmetry(ghost pop: set<User>, student: User, coaches: Arg)
    requires student in pop && Elements(coaches) <= pop && LinksSymmetric(pop)
    modifies pop
    ensures LinksSymmetric(pop)
  {
    student.AddCoaches(coaches);
  }

  /** A user created through the registry, or the uid that was already taken. */
  datatype RegistryError = DuplicateUid(uid: int)

  /** The class attribute __all_uids, with the users created since the last clear. */
  class Registry {
    var allUids: set<int>
    ghost var group: set<User>

    /** allUids holds exactly the uids of the group, and no uid twice. */
    ghost predicate Valid()
      reads this
    {
      && allUids == (set u | u in group :: u.uid)
      && UidsUnique(group)
    }

    constructor ()
      ensures Valid() && allUids == {} && group == {}
    {
      allUids := {};
      group := {};
    }

    /** User(uid): refused when the uid is already in use, otherwise registered. */
    method NewUser(uid: int) returns (r: Result<User, RegistryError>)
      requires Valid()
      modifies this
      ensures Valid()
      ensures uid in old(allUids) ==> r == Err(DuplicateUid(uid)) && allUids == old(allUids) && group == old(group)
      ensures uid !in old(allUids) ==>
        && r.Ok? && fresh(r.value)
        && r.value.uid == uid && r.value.students == {} && r.value.coaches == {}
        && allUids == old(allUids) + {uid} && group == old(group) + {r.value}
    {
      if uid in allUids {
        return Err(DuplicateUid(uid));
      }
      allUids := allUids + {uid};
      var u := new User(uid);
      group := group + {u};
      r := Ok(u);
    }

    /** clear_users: forget every uid, so a new group may reuse them. */
    method ClearUsers()
      modifies this
      ensures Valid() && allUids == {} && group == {}
    {
      allUids := {};
      group := {};
    }
  }

  /** The engine's view of a population: each uid with its students' and coaches' uids. */
  ghost function Snapshot(pop: set<User>): Graph
    requires UidsUnique(pop)
    reads pop
  {
    map u | u in pop :: u.uid := Node(set s | s in u.students :: s.uid, set c | c in u.coaches :: c.uid)
  }

  /** A closed, symmetric population with unique uids is a valid graph for the engine. */
  lemma SnapshotValid(pop: set<User>)
    requires UidsUnique(pop) && LinksClosed(pop) && LinksSymmetric(pop)
    ensures Valid(Snapshot(pop))
    ensures Snapshot(pop).Keys == set u | u in pop :: u.uid
  {
    var g := Snapshot(pop);
    forall x | x in g ensures Neighbours(g, x) <= g.Keys {
      var a :| a in pop && a.uid == x;
    }
    forall x, y | x in g && y in g ensures (y in g[x].students <==> x in g[y].coaches) {
      var a :| a in pop && a.uid == x;
      var b :| b in pop && b.uid == y;
      assert g[x].students == set s | s in a.students :: s.uid;
      assert g[y].coaches == set c | c in b.coaches :: c.uid;
    }
  }
}
