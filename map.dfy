/**
 * The station of the city map (build_network/map.py): a node of the network
 * with a name and a count of the gondolas currently at it.
 */
module BuildNetwork {

  class Station {
    const id: int
    const name: string
    const x: int
    const y: int
    /** Gondolas at the station; nothing keeps it from going below zero. */
    var currentGondola: int

    constructor (id: int, name: string, x: int, y: int)
      ensures this.id == id && this.name == name && this.x == x && this.y == y
      ensures currentGondola == 0
    {
      this.id := id;
      this.name := name;
      this.x := x;
      this.y := y;
      currentGondola := 0;
    }

    /** One more gondola at the station. */
    method AddGondola()
      modifies this
      ensures currentGondola == old(currentGondola) + 1
    {
      currentGondola := currentGondola + 1;
    }

    /** One gondola fewer, with no check against going negative. */
    method RemoveGondola()
      modifies this
      ensures currentGondola == old(currentGondola) - 1
    {
      currentGondola := currentGondola - 1;
    }

    /** The current count; the station is left as it is. */
    method GetCurrentNumberOfGondola() returns (count: int)
      ensures count == currentGondola
    {
      count := currentGondola;
    }
  }

  /** A gondola arriving and leaving again leaves the station exactly as it was. */
  method ArriveThenLeave(s: Station)
    modifies s
    ensures s.currentGondola == old(s.currentGondola)
  {
    s.AddGondola();
    s.RemoveGondola();
  }

  /** Removing from an empty station gives a negative count: remove_gondola has no lower bound. */
  method RemoveFromEmpty() returns (count: int)
    ensures count == -1
  {
    var s := new Station(1, "A", 0, 0);
    s.RemoveGondola();
    count := s.GetCurrentNumberOfGondola();
  }
}
