/**
 * The built-in self-test of main.cpp (testComponents), replayed in the
 * model: every assertion it makes becomes a fact the verifier proves.
 */
module Scenario {
  import opened Ecs

  /**
   * Registers a position system and a render system, creates a player
   * entity, and then adds, gets and removes its components as the self-test
   * does. `sizes` holds the size of the player's component map at each of
   * the seven points where the self-test checks it; `found` holds, for each
   * of the five component handles the self-test checks, whether it is
   * non-null (add Position, get Position, get Render, add Render, get
   * Position after its removal).
   */
  method TestComponents() returns (sizes: seq<int>, found: seq<bool>)
    ensures sizes == [0, 1, 1, 1, 2, 1, 0]
    ensures found == [true, true, false, true, false]
  {
    var gameEngine := new GameEngine();

    // The two systems are registered but hold no components.
    var positionSystem := gameEngine.AddSystem();
    var renderSystem := gameEngine.AddSystem();

    var player := gameEngine.CreateEntity();
    var n0 := |player.components|;
    assert n0 == 0;

    var pos: Component? := player.AddComponent(Position);
    assert player.components.Keys == {Position};
    var n1 := |player.components|;
    assert n1 == 1;

    var posB := player.GetComponent(Position);
    assert posB == pos;
    var n2 := |player.components|;
    assert n2 == 1;

    var ren := player.GetComponent(Render);
    var n3 := |player.components|;
    assert n3 == 1;

    var renB: Component? := player.AddComponent(Render);
    assert player.components.Keys == {Position, Render};
    var n4 := |player.components|;
    assert n4 == 2;

    player.RemoveComponent(Position);
    assert player.components.Keys == {Render};
    var n5 := |player.components|;
    assert n5 == 1;

    var posC := player.GetComponent(Position);

    player.RemoveComponent(Render);
    var n6 := |player.components|;
    assert n6 == 0;

    sizes := [n0, n1, n2, n3, n4, n5, n6];
    found := [pos != null, posB != null, ren != null, renB != null, posC != null];
  }
}
