/** The fixed map of the mysterious mansion and one visit to it: the map is
    built, explored from the entrance hall and released. */
module Mansion {
  import opened Rooms
  import opened Exploration
  import opened Teardown

  /** A tree whose every room up to depth `h` has both exits and whose rooms
      at depth `h` have none. */
  predicate Perfect(t: Tree, h: nat) {
    if h <= 1 then t.IsLeaf() && h == 1
    else
      && t.left.Some? && t.right.Some?
      && Perfect(t.left.value, h - 1) && Perfect(t.right.value, h - 1)
  }

  /** The mansion: the entrance hall leads to the living room and the
      library, each of which leads to two rooms without exits. */
  function MansionMap(): (t: Tree)
    ensures t.name == "Hall de Entrada"
  {
    Node("Hall de Entrada",
      Some(Node("Sala de Estar",
        Some(Node("Cozinha", None, None)),
        Some(Node("Sala de Jantar", None, None)))),
      Some(Node("Biblioteca",
        Some(Node("Escritório", None, None)),
        Some(Node("Jardim de Inverno", None, None)))))
  }

  /** The mansion is a perfect tree of three levels: seven rooms, and every
      room with an exit has both. */
  lemma MansionShape()
    ensures Perfect(MansionMap(), 3)
    ensures Size(Some(MansionMap())) == 7 && Height(Some(MansionMap())) == 3
  {
  }

  /** Creates a room and assigns its two exits to existing trees of rooms
      that share no room. */
  method Join(name: string, l: Room, r: Room) returns (room: Room)
    requires NameFits(name)
    requires l.Valid() && r.Valid() && l.Repr !! r.Repr
    ensures fresh(room) && room.Valid()
    ensures room.Repr == {room} + l.Repr + r.Repr
    ensures room.Model == Node(name, Some(l.Model), Some(r.Model))
  {
    room := new Room(name);
    room.left, room.right := l, r;
    room.Link();
  }

  /** Creates a room whose two exits lead to two new rooms without exits. */
  method Corridor(name: string, leftName: string, rightName: string) returns (room: Room)
    requires NameFits(name) && NameFits(leftName) && NameFits(rightName)
    ensures fresh(room.Repr) && room.Valid()
    ensures room.Model == Node(name, Some(Node(leftName, None, None)), Some(Node(rightName, None, None)))
  {
    var l := new Room(leftName);
    var r := new Room(rightName);
    room := Join(name, l, r);
  }

  /** Builds the mansion: the hall, whose exits lead to the living room and
      the library, each of which has two exits to rooms without exits. The
      result is a valid tree of fresh rooms whose value is the mansion map. */
  method BuildMansion() returns (root: Room)
    ensures root.Valid() && root.Model == MansionMap()
    ensures fresh(root.Repr)
  {
    var livingRoom := Corridor("Sala de Estar", "Cozinha", "Sala de Jantar");
    var library := Corridor("Biblioteca", "Escritório", "Jardim de Inverno");
    root := Join("Hall de Entrada", livingRoom, library);
  }

  /** Two moves to the left reach the kitchen, which has no exits. */
  lemma LeftLeftReachesKitchen(rest: seq<char>)
    ensures Walk(MansionMap(), "ee" + rest).stop == DeadEnd
    ensures LogOf(Walk(MansionMap(), "ee" + rest).rooms)
         == ["Hall de Entrada", "Sala de Estar", "Cozinha"]
  {
    var cmds := "ee" + rest;
    assert cmds[0] == 'e' && cmds[1..][0] == 'e';
    var hall := MansionMap();
    var living := hall.left.value;
    assert Walk(living, cmds[1..]) == Run([living] + Walk(living.left.value, cmds[1..][1..]).rooms, DeadEnd);
  }

  /** Right, then quit: the hall and the library are logged. */
  lemma RightThenQuit(rest: seq<char>)
    ensures Walk(MansionMap(), "ds" + rest).stop == Quit
    ensures LogOf(Walk(MansionMap(), "ds" + rest).rooms) == ["Hall de Entrada", "Biblioteca"]
  {
    var cmds := "ds" + rest;
    assert cmds[0] == 'd' && cmds[1..][0] == 's';
  }

  /** Twenty commands that lead nowhere from the entrance hall make the walk
      log the hall twenty-one times: the fixed log of twenty entries is full
      when the twenty-first visit is to be written. */
  lemma IdleHallOverflows()
    ensures var cmds := seq(LOG_CAPACITY, _ => 'x');
      Bounded(Walk(MansionMap(), cmds)) == LogOverflow(seq(LOG_CAPACITY, _ => "Hall de Entrada"))
  {
    var cmds := seq(LOG_CAPACITY, _ => 'x');
    IdleCommandsRelog(MansionMap(), cmds);
    var rooms := Walk(MansionMap(), cmds).rooms;
    assert LogOf(rooms)[..LOG_CAPACITY] == seq(LOG_CAPACITY, _ => "Hall de Entrada");
  }

  /** The same twenty commands with a growing log: every one of the
      twenty-one visits is kept. */
  lemma IdleHallLoggedInFull()
    ensures var cmds := seq(LOG_CAPACITY, _ => 'x');
      && LogOf(Walk(MansionMap(), cmds).rooms) == seq(LOG_CAPACITY + 1, _ => "Hall de Entrada")
      && Walk(MansionMap(), cmds).stop == OutOfInput
  {
    var cmds := seq(LOG_CAPACITY, _ => 'x');
    IdleCommandsRelog(MansionMap(), cmds);
  }

  /** The mansion's rooms in release order: each corridor's end rooms before
      the room that leads to them, the entrance hall last. */
  lemma MansionReleaseNames()
    ensures PostOrder(Some(MansionMap()))
         == ["Cozinha", "Sala de Jantar", "Sala de Estar",
             "Escritório", "Jardim de Inverno", "Biblioteca", "Hall de Entrada"]
  {
    var hall := MansionMap();
    var living, library := hall.left.value, hall.right.value;
    assert PostOrder(living.left) == ["Cozinha"];
    assert PostOrder(living.right) == ["Sala de Jantar"];
    assert PostOrder(hall.left) == ["Cozinha", "Sala de Jantar", "Sala de Estar"];
    assert PostOrder(library.left) == ["Escritório"];
    assert PostOrder(library.right) == ["Jardim de Inverno"];
    assert PostOrder(hall.right) == ["Escritório", "Jardim de Inverno", "Biblioteca"];
  }

  /** One run of the program: builds the mansion, explores it on `input` with
      a log that keeps every visit, and releases it. Returns the visit log,
      why the walk stopped and the names of the rooms in release order. */
  method Session(input: seq<char>) returns (log: seq<string>, stop: Stop, released: seq<string>)
    ensures log == LogOf(Walk(MansionMap(), input).rooms)
    ensures stop == Walk(MansionMap(), input).stop
    ensures released == PostOrder(Some(MansionMap()))
  {
    var root := BuildMansion();
    log, stop := ExploreGrowing(root, input);
    ReleaseNames(root);
    released := NamesOf(Release(root));
  }
}
