/** The settings screen's option values: language, snake colour, speed and
    difficulty, cycled in place by arrow keys and mouse clicks, and the
    frame-rate rule that turns the chosen speed and the score into ticks
    per second. */
module Settings {
  import opened Grid

  /** Number of choices per option (SNAKE_COLOR_OPTIONS, SPEED_OPTIONS,
      DIFFICULTY_OPTIONS). */
  const ColorCount: int := 4
  const SpeedOptions: seq<int> := [6, 10, 16]
  const DifficultyOptions: seq<Policy> := [Wrap, Wall]

  /** The two language codes (LANG_OPTIONS). */
  const Zh: string := "zh"
  const En: string := "en"

  /** The rows of the settings screen. */
  datatype OptionKey = LangRow | ColorRow | SpeedRow | DifficultyRow

  /** The four ways to change the selected row: the Left and Right arrow
      keys, and a left or right mouse click on the row's value. */
  datatype Move = ArrowLeft | ArrowRight | ClickLeft | ClickRight

  /** One step of an index through n choices, as Python computes
      `(i + delta) % n`; for positive n that is Dafny's `%` too. */
  function Cycle(i: int, n: int, delta: int): (r: int)
    requires n > 0
    ensures 0 <= r < n
    ensures 0 <= i + delta < n ==> r == i + delta
    ensures i + delta == -1 ==> r == n - 1
    ensures i + delta == n ==> r == 0
  {
    (i + delta) % n
  }

  /** Stepping back and then forward (or forward and then back) returns
      an in-range index to itself. */
  lemma CycleUndo(i: int, n: int)
    requires 0 <= i < n
    ensures Cycle(Cycle(i, n, -1), n, 1) == i
    ensures Cycle(Cycle(i, n, 1), n, -1) == i
  {
  }

  /** The language toggle of the arrow keys and the left click: "en" after
      "zh", "zh" after anything else. */
  function ToggleLang(lang: string): (r: string)
    ensures r == Zh || r == En
    ensures (lang == Zh || lang == En) ==> r != lang
  {
    if lang == Zh then En else Zh
  }

  /** The language toggle of the right click, written the other way round:
      "zh" after "en", "en" after anything else. */
  function ToggleLangBack(lang: string): (r: string)
    ensures r == Zh || r == En
    ensures (lang == Zh || lang == En) ==> r != lang
  {
    if lang == En then Zh else En
  }

  /** On the two language codes both toggles agree, swap the codes, and
      undo themselves and each other. */
  lemma TogglesAgree(lang: string)
    requires lang == Zh || lang == En
    ensures ToggleLang(lang) == ToggleLangBack(lang)
    ensures ToggleLang(lang) != lang && (ToggleLang(lang) == Zh || ToggleLang(lang) == En)
    ensures ToggleLang(ToggleLang(lang)) == lang
    ensures ToggleLangBack(ToggleLang(lang)) == lang
    ensures ToggleLang(ToggleLangBack(lang)) == lang
  {
  }

  /** The tick rate of the game loop: `min(60, base_speed + score // 3)`;
      the score is never negative, so floor division is Dafny's `/`. */
  function TickRate(baseSpeed: int, score: nat): (r: int)
    ensures r <= 60
    ensures r <= baseSpeed + score / 3
    ensures r == 60 || r == baseSpeed + score / 3
    ensures baseSpeed <= 60 ==> baseSpeed <= r
  {
    if baseSpeed + score / 3 < 60 then baseSpeed + score / 3 else 60
  }

  /** The rate never falls as the score rises, and for every speed setting
      stays between that speed and 60. */
  lemma TickRateMonotone(speedIdx: int, s1: nat, s2: nat)
    requires 0 <= speedIdx < |SpeedOptions|
    requires s1 <= s2
    ensures TickRate(SpeedOptions[speedIdx], s1) <= TickRate(SpeedOptions[speedIdx], s2)
    ensures 6 <= SpeedOptions[speedIdx] <= TickRate(SpeedOptions[speedIdx], s1) <= 60
  {
    assert s1 / 3 <= s2 / 3;
  }

  /** The module-level settings dictionary. */
  class Settings {
    var lang: string
    var snakeColorIdx: int
    var speedIdx: int
    var difficultyIdx: int

    /** Every option names one of its choices. */
    predicate Valid()
      reads this
    {
      (lang == Zh || lang == En)
      && 0 <= snakeColorIdx < ColorCount
      && 0 <= speedIdx < |SpeedOptions|
      && 0 <= difficultyIdx < |DifficultyOptions|
    }

    /** The defaults: Chinese, the first colour, medium speed, wrap. */
    constructor ()
      ensures lang == Zh && snakeColorIdx == 0 && speedIdx == 1 && difficultyIdx == 0
      ensures Valid()
      ensures BaseSpeed() == 10 && Difficulty() == Wrap
    {
      lang := Zh;
      snakeColorIdx := 0;
      speedIdx := 1;
      difficultyIdx := 0;
    }

    /** The game's base speed and boundary policy, as the game loop reads
        them when play starts. */
    function BaseSpeed(): (r: int)
      reads this
      requires Valid()
      ensures r in SpeedOptions
      ensures 6 <= r <= 16 && TickRate(r, 0) == r
      ensures forall j :: 0 <= j < |SpeedOptions| ==> (SpeedOptions[j] < r <==> j < speedIdx)
    {
      SpeedOptions[speedIdx]
    }

    function Difficulty(): (r: Policy)
      reads this
      requires Valid()
      ensures r == Wrap <==> difficultyIdx == 0
    {
      DifficultyOptions[difficultyIdx]
    }

    /** One change to the selected row: Right arrow and left click step
        forward, Left arrow and right click step back; every move toggles
        the language, the right click through its own toggle. Only the
        selected option changes. */
    method Adjust(key: OptionKey, move: Move)
      modifies this
      ensures var delta := if move == ArrowRight || move == ClickLeft then 1 else -1;
        && lang == (if key == LangRow then (if move == ClickRight then ToggleLangBack(old(lang)) else ToggleLang(old(lang))) else old(lang))
        && snakeColorIdx == (if key == ColorRow then Cycle(old(snakeColorIdx), ColorCount, delta) else old(snakeColorIdx))
        && speedIdx == (if key == SpeedRow then Cycle(old(speedIdx), |SpeedOptions|, delta) else old(speedIdx))
        && difficultyIdx == (if key == DifficultyRow then Cycle(old(difficultyIdx), |DifficultyOptions|, delta) else old(difficultyIdx))
      ensures old(Valid()) ==> Valid()
    {
      var delta := if move == ArrowRight || move == ClickLeft then 1 else -1;
      if key == LangRow {
        if move == ClickRight {
          lang := if lang == En then Zh else En;
        } else {
          lang := if lang == Zh then En else Zh;
        }
      } else if key == ColorRow {
        snakeColorIdx := (snakeColorIdx + delta) % ColorCount;
      } else if key == SpeedRow {
        speedIdx := (speedIdx + delta) % |SpeedOptions|;
      } else if key == DifficultyRow {
        difficultyIdx := (difficultyIdx + delta) % |DifficultyOptions|;
      }
    }
  }
}
