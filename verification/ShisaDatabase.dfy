/** What the key database promises: realms, their principals, and for each principal a bag of keys. */
module ShisaDatabase {
  import opened MachineInts
  import opened KeyFile

  /** The keys of a principal; None before the first key has been added. */
  type Bag = Option<multiset<ShisaKey>>

  /** Principals, and realms, by name. */
  type Realm = map<string, Bag>
  type Database = map<string, Realm>

  /**
   * The results of the operations. Failed is the -1 of a failing system call. Undefined is no result at all: strcmp has
   * been called with a null pointer.
   */
  datatype Code =
    | Ok | NoRealm | NoPrincipal | NoKey | EnumerateKeyError | AddRealmExists | AddRealmError | RemoveRealmNonempty
    | RemoveRealmError | AddPrincipalExists | AddPrincipalError | RemovePrincipalError | AddKeyError | MultipleKeyMatch
    | Failed | Undefined

  // ----- Hints -----

  /** All but the password: what the hint leaves out matches everything. The priority is never compared. */
  predicate Agrees(hint: ShisaKey, k: ShisaKey) {
    && (hint.kvno != 0 ==> hint.kvno == k.kvno)
    && (hint.etype != 0 ==> hint.etype == k.etype)
    && (hint.key != "" ==> hint.key == k.key)
    && (hint.salt != "" ==> hint.salt == k.salt)
    && (hint.str2keyparam != "" ==> hint.str2keyparam == k.str2keyparam)
  }

  /** What `key_match` returns: None if it calls strcmp with the password that the key does not have. */
  function Compared(hint: ShisaKey, k: ShisaKey): Option<bool> {
    if !Agrees(hint, k) then Some(false)
    else if hint.password.None? then Some(true)
    else if k.password.None? then None
    else Some(hint.password == k.password)
  }

  /** No hint at all matches every key. */
  predicate Selected(hint: Option<ShisaKey>, k: ShisaKey) {
    hint.Some? ==> Compared(hint.value, k) == Some(true)
  }

  /** A key without a password does not meet a hint with one, or differs from it in another field. */
  predicate Comparable(hint: Option<ShisaKey>, k: ShisaKey) {
    hint.Some? && hint.value.password.Some? && Agrees(hint.value, k) ==> k.password.Some?
  }

  predicate Defined(hint: Option<ShisaKey>, bag: multiset<ShisaKey>) {
    forall k :: k in bag ==> Comparable(hint, k)
  }

  /** The match is defined on every key exactly if the hint has no password or none is missing where it would count. */
  lemma DefinedExactly(hint: ShisaKey, bag: multiset<ShisaKey>)
    ensures (forall k :: k in bag ==> Compared(hint, k).Some?) <==> Defined(Some(hint), bag)
    ensures Defined(Some(hint), bag) <==>
              hint.password.None? || !exists k :: k in bag && Agrees(hint, k) && k.password.None?
  {
    hide Agrees;
    assert forall k :: Compared(hint, k).Some? <==> Comparable(Some(hint), k);
    if exists k :: k in bag && Agrees(hint, k) && k.password.None? {
      var k :| k in bag && Agrees(hint, k) && k.password.None?;
      assert Comparable(Some(hint), k) <==> hint.password.None?;
    }
  }

  /** A hint with nothing but a password is not defined on a key without one, and an empty password is no wildcard. */
  lemma PasswordMissing()
    ensures var k := ShisaKey(0, 18, 0, "key", "", "", None);
            && Compared(NO_KEY.(password := Some("x")), k) == None
            && !Defined(Some(NO_KEY.(password := Some("x"))), multiset{k})
            && Compared(NO_KEY.(password := Some("")), k.(password := Some("x"))) == Some(false)
  {
    var k := ShisaKey(0, 18, 0, "key", "", "", None);
    assert !Comparable(Some(NO_KEY.(password := Some("x"))), k);
    assert k in multiset{k};
  }

  /** A key is found by itself unless it has a version; with an empty password the comparison is not even defined. */
  lemma FoundByItself(k: ShisaKey)
    ensures Compared(k, k.Stored())
         == if k.kvno != 0 then Some(false) else if k.password == Some("") then None else Some(true)
  {
  }

  /** The keys in the bag that the hint selects, each as often as it is there. */
  ghost function Selection(hint: Option<ShisaKey>, bag: multiset<ShisaKey>): (r: multiset<ShisaKey>)
    ensures forall k :: r[k] == if Selected(hint, k) then bag[k] else 0
    decreases |bag|
  {
    if bag == multiset{} then bag
    else
      var k :| k in bag;
      (if Selected(hint, k) then multiset{k} else multiset{}) + Selection(hint, bag - multiset{k})
  }

  // ----- What a hint selects, field by field -----

  /** A hint with one field selects exactly the keys that have this value there. */
  lemma SingleField(bag: multiset<ShisaKey>, k: ShisaKey, x: ShisaKey)
    ensures x.kvno != 0 ==> Selection(Some(NO_KEY.(kvno := x.kvno)), bag)[k] == if k.kvno == x.kvno then bag[k] else 0
    ensures x.etype != 0 ==>
              Selection(Some(NO_KEY.(etype := x.etype)), bag)[k] == if k.etype == x.etype then bag[k] else 0
    ensures x.key != "" ==> Selection(Some(NO_KEY.(key := x.key)), bag)[k] == if k.key == x.key then bag[k] else 0
    ensures x.salt != "" ==> Selection(Some(NO_KEY.(salt := x.salt)), bag)[k] == if k.salt == x.salt then bag[k] else 0
    ensures x.str2keyparam != "" ==>
              Selection(Some(NO_KEY.(str2keyparam := x.str2keyparam)), bag)[k]
              == if k.str2keyparam == x.str2keyparam then bag[k] else 0
    ensures x.password != None ==>
              Selection(Some(NO_KEY.(password := x.password)), bag)[k] == if k.password == x.password then bag[k] else 0
  {
    hide Selection;
  }

  /** A hint with no field, or with a priority only, selects every key, and so does no hint. */
  lemma NoField(bag: multiset<ShisaKey>, priority: Int32)
    ensures Selection(Some(NO_KEY.(priority := priority)), bag) == bag == Selection(None, bag)
  {
    hide Selection;
    forall k
      ensures Selection(Some(NO_KEY.(priority := priority)), bag)[k] == bag[k] == Selection(None, bag)[k]
    {
    }
  }

  /** A hint with only a password is defined exactly if every key has one. */
  lemma PasswordDefined(bag: multiset<ShisaKey>, p: CString)
    ensures Defined(Some(NO_KEY.(password := Some(p))), bag) <==> forall k :: k in bag ==> k.password.Some?
  {
    assert forall k :: Comparable(Some(NO_KEY.(password := Some(p))), k) <==> k.password.Some?;
  }

  /** All fields but the password, each in a hint of its own, select the key. */
  predicate SelectedByEach(hint: ShisaKey, k: ShisaKey) {
    && Selected(Some(NO_KEY.(kvno := hint.kvno)), k)
    && Selected(Some(NO_KEY.(etype := hint.etype)), k)
    && Selected(Some(NO_KEY.(key := hint.key)), k)
    && Selected(Some(NO_KEY.(salt := hint.salt)), k)
    && Selected(Some(NO_KEY.(str2keyparam := hint.str2keyparam)), k)
  }

  /** A hint with several fields selects what all its fields select; and they decide whether it is defined. */
  lemma FieldsCombine(hint: ShisaKey, k: ShisaKey)
    ensures Selected(Some(hint), k) <==>
              SelectedByEach(hint, k) && Selected(Some(NO_KEY.(password := hint.password)), k)
    ensures Comparable(Some(hint), k) <==> hint.password.None? || k.password.Some? || !SelectedByEach(hint, k)
  {
  }

  /** A hint with every field selects only keys that are the same up to the priority, which is never compared. */
  lemma EveryField(hint: ShisaKey, bag: multiset<ShisaKey>, k: ShisaKey)
    requires hint.etype != 0 && hint.key != "" && hint.salt != "" && hint.str2keyparam != "" && hint.password != None
    requires hint.kvno != 0 || k.kvno == 0
    ensures Selection(Some(hint), bag)[k] == if k == hint.(priority := k.priority) then bag[k] else 0
  {
    hide Selection;
  }

  datatype Operation =
    | RealmAdd(realm: string)
    | RealmRemove(realm: string)
    | PrincipalAdd(realm: string, principal: string, key: Option<ShisaKey>)
    | PrincipalRemove(realm: string, principal: string)
    | KeyAdd(realm: string, principal: string, key: Option<ShisaKey>)
    | KeyRemove(realm: string, principal: string, hint: Option<ShisaKey>)

  /** The bag of a principal, if there is such a principal. */
  function BagOf(db: Database, realm: string, principal: string): Option<Bag> {
    if realm in db && principal in db[realm] then Some(db[realm][principal]) else None
  }

  function WithBag(db: Database, realm: string, principal: string, bag: Bag): Database
    requires realm in db
  {
    db[realm := db[realm][principal := bag]]
  }

  /** One more key; the version number is not kept. */
  function Extended(bag: Bag, k: ShisaKey): Bag {
    Some((if bag.Some? then bag.value else multiset{}) + multiset{k.Stored()})
  }

  /** What an operation returns and what it leaves of the database, where it is defined. */
  ghost function Step(db: Database, op: Operation): (Code, Database) {
    match op
    case RealmAdd(realm) =>
      if realm in db then (AddRealmExists, db) else (Ok, db[realm := map[]])
    case RealmRemove(realm) =>
      if realm !in db then (NoRealm, db)
      else if db[realm] != map[] then (RemoveRealmNonempty, db)
      else (Ok, db - {realm})
    case PrincipalAdd(realm, principal, key) =>
      if realm !in db then (NoRealm, db)
      else if principal in db[realm] then (AddPrincipalExists, db)
      else (Ok, WithBag(db, realm, principal, if key.Some? then Extended(None, key.value) else None))
    case PrincipalRemove(realm, principal) =>
      if realm !in db then (NoRealm, db)
      else if principal !in db[realm] then (NoPrincipal, db)
      else if db[realm][principal] == None then (Failed, db)
      else (Ok, db[realm := db[realm] - {principal}])
    case KeyAdd(realm, principal, key) =>
      (match (key, BagOf(db, realm, principal))
       case (Some(k), Some(bag)) => (Ok, WithBag(db, realm, principal, Extended(bag, k)))
       case _ => (NoKey, db))
    case KeyRemove(realm, principal, hint) =>
      (match BagOf(db, realm, principal)
       case Some(Some(bag)) =>
         var found := Selection(hint, bag);
         if |found| == 0 then (NoKey, db)
         else if |found| > 1 then (MultipleKeyMatch, db)
         else (Ok, WithBag(db, realm, principal, Some(bag - found)))
       case _ => (Failed, db))
  }

  /** Removing a key compares a hint with all keys of the principal. */
  predicate DefinedStep(db: Database, op: Operation) {
    op.KeyRemove? ==>
      var bag := BagOf(db, op.realm, op.principal);
      bag.Some? && bag.value.Some? ==> Defined(op.hint, bag.value.value)
  }

  /**
   * The result and effect of an operation are those of the step; only removing a key with a hint that is not defined on
   * all keys may be undefined, and is unless several keys have been found.
   */
  ghost predicate Performed(db: Database, op: Operation, code: Code, after: Database) {
    && (code == Undefined ==> !DefinedStep(db, op) && after == db)
    && (code != Undefined ==> (code, after) == Step(db, op) && (DefinedStep(db, op) || code == MultipleKeyMatch))
  }

  /** Removal of a key, by the number of keys that the hint selects. */
  lemma KeyRemoveCases(db: Database, realm: string, principal: string, hint: Option<ShisaKey>, bag: multiset<ShisaKey>)
    requires BagOf(db, realm, principal) == Some(Some(bag))
    ensures var op, found := KeyRemove(realm, principal, hint), Selection(hint, bag);
            && (!Defined(hint, bag) ==> Performed(db, op, Undefined, db))
            && (|found| == 0 && Defined(hint, bag) ==> Performed(db, op, NoKey, db))
            && (|found| > 1 ==> Performed(db, op, MultipleKeyMatch, db))
            && realm in db
            && (|found| == 1 && Defined(hint, bag) ==>
                  Performed(db, op, Ok, WithBag(db, realm, principal, Some(bag - found))))
  {
    hide Selection, WithBag, Defined;
  }

  lemma KeyRemoveFails(db: Database, realm: string, principal: string, hint: Option<ShisaKey>)
    ensures BagOf(db, realm, principal) == None || BagOf(db, realm, principal) == Some(None) ==>
              Performed(db, KeyRemove(realm, principal, hint), Failed, db)
  {
    hide Selection, WithBag, Defined;
  }

  /** Every other operation is always defined. */
  lemma StepPerformed(db: Database, op: Operation)
    requires !op.KeyRemove?
    ensures Performed(db, op, Step(db, op).0, Step(db, op).1)
  {
    hide Selection, WithBag, Defined, Extended;
  }

  /** No operation of the run is undefined. */
  ghost predicate DefinedRun(db: Database, ops: seq<Operation>)
    decreases |ops|
  {
    ops == [] || (DefinedStep(db, ops[0]) && DefinedRun(Step(db, ops[0]).1, ops[1..]))
  }

  /** The database after a run of operations. */
  ghost function Run(db: Database, ops: seq<Operation>): Database
    decreases |ops|
  {
    if ops == [] then db else Run(Step(db, ops[0]).1, ops[1..])
  }

  lemma {:induction false} RunOneMore(db: Database, ops: seq<Operation>, n: nat)
    requires n < |ops|
    ensures Run(db, ops[..n + 1]) == Step(Run(db, ops[..n]), ops[n]).1
    decreases n
  {
    hide Step;
    if n > 0 {
      RunOneMore(Step(db, ops[0]).1, ops[1..], n - 1);
      assert ops[..n + 1][1..] == ops[1..][..n] && ops[..n][1..] == ops[1..][..n - 1];
    }
  }

  // ----- Properties of every run -----

  /** No stored key has a version number or an empty password. */
  ghost predicate AllStored(bag: Bag) {
    bag.Some? ==> forall k :: k in bag.value ==> k == k.Stored()
  }

  ghost predicate HoldsStored(db: Database) {
    forall realm, principal :: realm in db && principal in db[realm] ==> AllStored(db[realm][principal])
  }

  lemma ExtendedAllStored(bag: Bag, k: ShisaKey)
    requires AllStored(bag)
    ensures AllStored(Extended(bag, k)) && AllStored(None)
  {
  }

  lemma ReducedAllStored(bag: multiset<ShisaKey>, less: multiset<ShisaKey>)
    requires AllStored(Some(bag))
    ensures AllStored(Some(bag - less))
  {
  }

  lemma WithBagHoldsStored(db: Database, realm: string, principal: string, bag: Bag)
    requires HoldsStored(db) && AllStored(bag) && realm in db
    ensures HoldsStored(WithBag(db, realm, principal, bag))
  {
    hide AllStored;
  }

  lemma StepHoldsStored(db: Database, op: Operation)
    requires HoldsStored(db)
    ensures HoldsStored(Step(db, op).1)
  {
    hide AllStored, WithBag, Extended;
    match op
    case RealmAdd(realm) =>
    case RealmRemove(realm) =>
    case PrincipalAdd(realm, principal, key) =>
      if realm in db {
        NoBagAllStored();
        if key.Some? {
          ExtendedAllStored(None, key.value);
        }
        WithBagHoldsStored(db, realm, principal, if key.Some? then Extended(None, key.value) else None);
      }
    case PrincipalRemove(realm, principal) =>
    case KeyAdd(realm, principal, key) =>
      if key.Some? && BagOf(db, realm, principal).Some? {
        ExtendedAllStored(db[realm][principal], key.value);
        WithBagHoldsStored(db, realm, principal, Extended(db[realm][principal], key.value));
      }
    case KeyRemove(realm, principal, hint) =>
      if BagOf(db, realm, principal).Some? && db[realm][principal].Some? {
        var bag := db[realm][principal].value;
        ReducedAllStored(bag, Selection(hint, bag));
        WithBagHoldsStored(db, realm, principal, Some(bag - Selection(hint, bag)));
      }
  }

  lemma NoBagAllStored()
    ensures AllStored(None)
  {
  }

  lemma {:induction false} RunHoldsStored(db: Database, ops: seq<Operation>)
    requires HoldsStored(db)
    ensures HoldsStored(Run(db, ops))
    decreases |ops|
  {
    hide HoldsStored, Step;
    if ops != [] {
      StepHoldsStored(db, ops[0]);
      RunHoldsStored(Step(db, ops[0]).1, ops[1..]);
    }
  }

  /** So after every run a hint with a version number or an empty password selects nothing. */
  lemma {:induction false} NeverMatched(ops: seq<Operation>, realm: string, principal: string, hint: ShisaKey)
    requires hint.kvno != 0 || hint.password == Some("")
    ensures var bag := BagOf(Run(map[], ops), realm, principal);
            bag.Some? && bag.value.Some? ==>
              && Selection(Some(hint), bag.value.value) == multiset{}
              && (hint.kvno != 0 ==> Defined(Some(hint), bag.value.value))
  {
    hide Run, Step;
    RunHoldsStored(map[], ops);
    var bag := BagOf(Run(map[], ops), realm, principal);
    if bag.Some? && bag.value.Some? {
      var s := Selection(Some(hint), bag.value.value);
      forall k
        ensures s[k] == 0
      {
      }
    }
  }

  /** Removing a key undoes adding it, if the hint selects it and nothing else and can be compared with the others. */
  lemma RemoveUndoesAdd(db: Database, realm: string, principal: string, bag: multiset<ShisaKey>,
                        k: ShisaKey, hint: Option<ShisaKey>)
    requires BagOf(db, realm, principal) == Some(Some(bag))
    requires Selected(hint, k.Stored()) && Selection(hint, bag) == multiset{} && Defined(hint, bag)
    ensures var added := Step(db, KeyAdd(realm, principal, Some(k)));
            && added.0 == Ok
            && DefinedStep(added.1, KeyRemove(realm, principal, hint))
            && Step(added.1, KeyRemove(realm, principal, hint)) == (Ok, db)
  {
    hide Selected, Selection, WithBag, Comparable;
    SelectedIsComparable(hint, k.Stored());
    var more := bag + multiset{k.Stored()};
    SelectionOfOneMore(hint, bag, k.Stored());
    var found := Selection(hint, more);
    assert found == multiset{k.Stored()} && |found| == 1;
    assert more - found == bag;
    WithBagGives(db, realm, principal, Some(more));
    WithBagBack(db, realm, principal, Some(more));
    assert Step(db, KeyAdd(realm, principal, Some(k))) == (Ok, WithBag(db, realm, principal, Some(more)));
  }

  lemma SelectedIsComparable(hint: Option<ShisaKey>, k: ShisaKey)
    requires Selected(hint, k)
    ensures Comparable(hint, k)
  {
  }

  lemma WithBagGives(db: Database, realm: string, principal: string, bag: Bag)
    requires realm in db
    ensures BagOf(WithBag(db, realm, principal, bag), realm, principal) == Some(bag)
    ensures realm in WithBag(db, realm, principal, bag)
  {
  }

  lemma WithBagBack(db: Database, realm: string, principal: string, bag: Bag)
    requires BagOf(db, realm, principal).Some?
    ensures WithBag(WithBag(db, realm, principal, bag), realm, principal, db[realm][principal]) == db
  {
    assert db[realm][principal := bag][principal := db[realm][principal]] == db[realm];
  }

  /** The principal that an operation is about; a realm operation is about none. */
  predicate Concerns(op: Operation, realm: string, principal: string) {
    !op.RealmAdd? && !op.RealmRemove? && op.realm == realm && op.principal == principal
  }

  /** An operation leaves the keys of every other principal as they are. */
  lemma OthersUntouched(db: Database, op: Operation, realm: string, principal: string)
    requires !Concerns(op, realm, principal)
    ensures BagOf(Step(db, op).1, realm, principal) == BagOf(db, realm, principal)
  {
    hide Selection, Extended;
  }

  /** So after a run that does not concern a principal its keys are what they were. */
  lemma {:induction false} OthersUntouchedByRun(db: Database, ops: seq<Operation>, realm: string, principal: string)
    requires forall i :: 0 <= i < |ops| ==> !Concerns(ops[i], realm, principal)
    ensures BagOf(Run(db, ops), realm, principal) == BagOf(db, realm, principal)
    decreases |ops|
  {
    hide Step;
    if ops != [] {
      OthersUntouched(db, ops[0], realm, principal);
      OthersUntouchedByRun(Step(db, ops[0]).1, ops[1..], realm, principal);
    }
  }

  lemma {:induction false} SelectionOfOneMore(hint: Option<ShisaKey>, bag: multiset<ShisaKey>, k: ShisaKey)
    ensures Selection(hint, bag + multiset{k})
         == Selection(hint, bag) + if Selected(hint, k) then multiset{k} else multiset{}
  {
    hide Selected, Selection;
    forall j
      ensures Selection(hint, bag + multiset{k})[j]
           == (Selection(hint, bag) + if Selected(hint, k) then multiset{k} else multiset{})[j]
    {
    }
  }
}
