/** The application state (src/model/state.rs, `State` and `GameState`)
    and the transitions the screens drive: the main menu's settings and
    loading a game, and one frame of the game screen
    (src/view/in_game/in_game_ui.rs, `render`), which handles the keys,
    asks for the win status and moves to `Won` once the puzzle is solved. */
module GameStates {
  import opened Wrappers
  import opened Errors
  import opened Layouts
  import InGame
  import Keyboard
  import WinStatus
  import Generator
  import Growth

  datatype GameState = MainMenu | InGame(game: InGame.InGameState) | Won

  datatype State = State(n: nat, layoutType: InGame.LayoutType, game: GameState)

  /** The settings `load_in_game` can build a game from: a grid whose size
      fits in `u8`, and the complex template only at its own size. */
  predicate Loadable(st: State)
  {
    0 < st.n && st.n * st.n < 256 && (st.layoutType.Complex? ==> st.n == 10)
  }

  /** `State::default()`: side 10, in the main menu. The default layout type
      is not part of this model, so it is a parameter. */
  function Default(lt: InGame.LayoutType): (st: State)
    ensures Loadable(st) && st.n == 10 && st.game.MainMenu? && st.layoutType == lt
  {
    State(10, lt, MainMenu)
  }

  /** The main menu's settings: the slider offers 6 to 12, and choosing the
      complex template forces the side to 10. Whatever is picked can be
      loaded, and the side is the one picked unless the template overrides
      it. */
  function ChooseSettings(st: State, n: nat, lt: InGame.LayoutType): (r: State)
    requires 6 <= n <= 12
    ensures Loadable(r) && r.layoutType == lt && r.game == st.game
    ensures r.n == n || (lt.Complex? && r.n == 10)
  {
    State(if lt.Complex? then 10 else n, lt, st.game)
  }

  /** A game in progress that the screen can work on: the grid has n * n
      tiles, the cursor is on the board and the layout partitions it. */
  ghost predicate Playing(st: State)
  {
    && st.game.InGame?
    && Keyboard.Fits(st.n, st.game.game)
    && IsPartition(st.game.game.layout, st.n * st.n)
  }

  /** `load_in_game`: a fresh game for the current settings, the
      generator's randomness given as the shuffles and growth draws; `None`
      when those run out. The settings are kept and the new game is one the
      screen can play, with nothing marked and no cursor. */
  function LoadInGame(st: State, shuffles: seq<seq<nat>>, choices: seq<Growth.Choice>): (r: Option<State>)
    requires Loadable(st) && Generator.AllOnBoard(st.n, shuffles)
    ensures !st.layoutType.Generated? ==> r.Some?
    ensures r.Some? ==>
              && Playing(r.value)
              && r.value.n == st.n && r.value.layoutType == st.layoutType
              && r.value.game.game.marked.None?
              && (forall x :: 0 <= x < st.n * st.n ==> !r.value.game.game.grid.data[x].marked)
  {
    match InGame.New(st.n, st.layoutType, shuffles, choices)
    case None => None
    case Some(g) => Some(st.(game := InGame(g)))
  }

  /** `set_game_won`. */
  function SetGameWon(st: State): (r: State)
    ensures r.game.Won? && r.n == st.n && r.layoutType == st.layoutType
  {
    st.(game := Won)
  }

  /** One frame of the game screen: the keys, then the win status of the
      side the state holds, then `Won` when the puzzle is solved. Drawing
      is left out. The palette says how the win check compares colours:
      `WinStatus.Display` is the program as written (`get_win_status`
      compares display colours), `WinStatus.Raw` the corrected comparison
      of raw colours. */
  function Frame(st: State, keys: Keyboard.Keys, p: WinStatus.Palette): Result<State, QueensError>
    requires st.game.InGame? && Keyboard.Fits(st.n, st.game.game)
  {
    var g :- Keyboard.HandleKeyboard(st.n, st.game.game, keys);
    Keyboard.HandleKeyboardEffect(st.n, st.game.game, keys);
    var status :- WinStatus.GetWinStatus(st.n, g.grid.data, g.layout, p);
    if status.1 then Ok(SetGameWon(st)) else Ok(st.(game := InGame(g)))
  }

  /** What a frame does to a game being played: it fails only when Escape
      is pressed with no cursor (a request for a fresh game); otherwise the
      settings stay, and the state becomes `Won` exactly when the grid after
      the keys holds a winning marking under the palette, and else keeps
      playing on that grid. As written, a board of side 12 or more is never
      won. */
  lemma FrameEffect(st: State, keys: Keyboard.Keys, p: WinStatus.Palette)
    requires Playing(st)
    ensures var r := Frame(st, keys, p);
            var g := Keyboard.HandleKeyboard(st.n, st.game.game, keys);
            && (r.Err? <==> g.Err?)
            && (r.Err? ==> r.error == RefreshRequested)
            && (r.Ok? ==>
                  && r.value.n == st.n && r.value.layoutType == st.layoutType
                  && (r.value.game.Won? <==> WinStatus.Winning(st.n, p, g.value.grid.data))
                  && (!r.value.game.Won? ==> Playing(r.value) && r.value.game.game == g.value))
    ensures p.Display? && st.n >= 12 && Frame(st, keys, p).Ok? ==> !Frame(st, keys, p).value.game.Won?
  {
    var g := Keyboard.HandleKeyboard(st.n, st.game.game, keys);
    Keyboard.HandleKeyboardEffect(st.n, st.game.game, keys);
    if g.Ok? {
      var data := g.value.grid.data;
      WinStatus.CoveredNeverFails(st.n, data, g.value.layout, p);
      WinStatus.WinStatusMeaning(st.n, data, g.value.layout, p);
      if p.Display? && st.n >= 12 {
        WinStatus.DisplayNeverWinsFromTwelve(st.n, data, g.value.layout);
      }
    }
  }

  /** A freshly loaded game is not won by a frame in which no tile is
      clicked, whichever way colours are compared. */
  lemma NoWinWithoutClick(st: State, keys: Keyboard.Keys, p: WinStatus.Palette,
                          shuffles: seq<seq<nat>>, choices: seq<Growth.Choice>)
    requires Loadable(st) && Generator.AllOnBoard(st.n, shuffles)
    requires LoadInGame(st, shuffles, choices).Some? && !keys.confirm
    ensures var s := LoadInGame(st, shuffles, choices).value;
            Frame(s, keys, p).Ok? ==> !Frame(s, keys, p).value.game.Won?
  {
    var s := LoadInGame(st, shuffles, choices).value;
    var g := Keyboard.HandleKeyboard(s.n, s.game.game, keys);
    if g.Ok? {
      Keyboard.HandleKeyboardEffect(s.n, s.game.game, keys);
      WinStatus.EmptyGrid(s.n, g.value.grid.data, g.value.layout, p);
    }
  }
}
