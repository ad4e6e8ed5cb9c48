/** The hangman game of one channel: a secret title, the revealed letters, the tries left. */
module Hangman {
  import opened Wrappers
  import opened Text

  /** What a hidden letter shows as. */
  const Hidden: char := '·'
  const StartTries: int := 6

  predicate IsLetter(c: char) {
    'A' <= c <= 'Z' || 'a' <= c <= 'z'
  }

  /** `str.upper()` on one ASCII character: never a small letter, and the same letter ignoring case. */
  function Upper(c: char): (u: char)
    ensures !('a' <= u <= 'z') && Lower(u) == Lower(c)
    ensures IsLetter(c) <==> IsLetter(u)
    ensures IsLetter(c) ==> 'A' <= u <= 'Z'
  {
    if 'a' <= c <= 'z' then (c as int - 32) as char else c
  }

  /** `s.upper()`. */
  function UpperAll(s: string): (r: string)
    ensures |r| == |s|
    ensures forall i :: 0 <= i < |s| ==> !('a' <= r[i] <= 'z') && Lower(r[i]) == Lower(s[i])
  {
    seq(|s|, i requires 0 <= i < |s| => Upper(s[i]))
  }

  /** A secret holds upper-case letters and spaces only. */
  predicate SecretShape(secret: string) {
    forall i :: 0 <= i < |secret| ==> secret[i] == ' ' || 'A' <= secret[i] <= 'Z'
  }

  /** The secret made from a title: upper-cased, every non-letter turned into a space. */
  function SecretOf(title: string): (secret: string)
    ensures |secret| == |title| && SecretShape(secret)
    ensures forall i :: 0 <= i < |title| ==> (secret[i] == ' ' <==> !IsLetter(title[i]))
    ensures forall i :: 0 <= i < |title| && IsLetter(title[i]) ==> Lower(secret[i]) == Lower(title[i])
  {
    seq(|title|, i requires 0 <= i < |title| => if IsLetter(title[i]) then Upper(title[i]) else ' ')
  }

  /** The letters there are to find. */
  function Letters(secret: string): set<char> {
    set i | 0 <= i < |secret| && secret[i] != ' ' :: secret[i]
  }

  /** What the players see once `guessed` has been tried: found letters, hidden ones, spaces. */
  function Mask(secret: string, guessed: set<char>): (display: seq<char>)
    ensures |display| == |secret|
  {
    seq(|secret|, i requires 0 <= i < |secret| =>
      if secret[i] == ' ' then ' ' else if secret[i] in guessed then secret[i] else Hidden)
  }

  /** The display has no hidden letter left exactly when every letter of the secret was guessed. */
  lemma WonIffAllLettersGuessed(secret: string, guessed: set<char>)
    requires SecretShape(secret)
    ensures Hidden !in Mask(secret, guessed) <==> Letters(secret) <= guessed
  {
    var m := Mask(secret, guessed);
    if Hidden !in m {
      forall c | c in Letters(secret) ensures c in guessed {
        var i :| 0 <= i < |secret| && secret[i] != ' ' && secret[i] == c;
        assert m[i] != Hidden;
      }
    } else {
      var i :| 0 <= i < |m| && m[i] == Hidden;
      assert secret[i] in Letters(secret) && secret[i] !in guessed;
    }
  }

  /** The display with every place of `l` in the secret showing `l`. */
  function Revealed(secret: string, display: seq<char>, l: char): (r: seq<char>)
    requires |display| == |secret|
    ensures |r| == |secret|
  {
    seq(|secret|, k requires 0 <= k < |secret| => if secret[k] == l then l else display[k])
  }

  /** The reveal loop over `enumerate(secret)`, writing `l` into the display at each match. */
  method Reveal(secret: string, display: seq<char>, l: char) returns (shown: seq<char>)
    requires |display| == |secret|
    ensures shown == Revealed(secret, display, l)
  {
    shown := display;
    var i := 0;
    while i < |secret|
      invariant 0 <= i <= |secret|
      invariant |shown| == |secret|
      invariant forall k :: 0 <= k < i ==> shown[k] == if secret[k] == l then l else display[k]
      invariant forall k :: i <= k < |secret| ==> shown[k] == display[k]
    {
      if secret[i] == l {
        shown := shown[i := l];
      }
      i := i + 1;
    }
  }

  /** Revealing a letter of the secret on the display of `guessed` gives the display of `guessed`
      with that letter added. */
  lemma RevealIsMask(secret: string, guessed: set<char>, l: char)
    requires l != ' '
    ensures Revealed(secret, Mask(secret, guessed), l) == Mask(secret, guessed + {l})
  {
  }

  /** Guessing a letter the secret does not hold leaves the display as it was. */
  lemma MaskIgnoresAbsent(secret: string, guessed: set<char>, l: char)
    requires l !in secret
    ensures Mask(secret, guessed + {l}) == Mask(secret, guessed)
  {
    assert forall k :: 0 <= k < |secret| ==> secret[k] != l;
  }

  /** A letter that occurs costs nothing; a letter that does not costs one try. */
  lemma MissesAfterGuess(secret: string, guessed: set<char>, l: char)
    requires l !in guessed
    ensures l in Letters(secret) ==> |(guessed + {l}) - Letters(secret)| == |guessed - Letters(secret)|
    ensures l !in Letters(secret) ==> |(guessed + {l}) - Letters(secret)| == |guessed - Letters(secret)| + 1
  {
    var misses := guessed - Letters(secret);
    if l in Letters(secret) {
      assert (guessed + {l}) - Letters(secret) == misses;
    } else {
      assert (guessed + {l}) - Letters(secret) == misses + {l};
    }
  }

  /** A letter other than a space occurs in the secret exactly when it is one of its letters. */
  lemma InSecretIsLetter(secret: string, l: char)
    requires l != ' '
    ensures l in secret <==> l in Letters(secret)
  {
    if l in secret {
      var k :| 0 <= k < |secret| && secret[k] == l;
      assert secret[k] in Letters(secret);
    }
  }

  /** The bot's reply to a guess. */
  datatype Reply =
    | NoGame                                   // no game in the channel
    | Invalid                                  // not a single letter
    | AlreadyTried(letter: char)
    | Won(display: seq<char>)
    | Lost(secret: string)
    | Progress(display: seq<char>, tries: int)

  /** The game state kept for a channel; `active` is false once it is won or lost and removed. */
  datatype GameState = GameState(secret: string, display: seq<char>, tries: int, guessed: set<char>, active: bool)

  /** The display shows exactly the guessed letters and each missed letter cost one try; a
      running game has tries left. */
  predicate ValidState(g: GameState) {
    && SecretShape(g.secret)
    && g.display == Mask(g.secret, g.guessed)
    && (forall c :: c in g.guessed ==> 'A' <= c <= 'Z')
    && g.tries == StartTries - |g.guessed - Letters(g.secret)|
    && (g.active ==> 0 < g.tries)
  }

  /** The game `!hangman` starts for a title. */
  function NewGame(title: string): GameState {
    GameState(SecretOf(title), Mask(SecretOf(title), {}), StartTries, {}, true)
  }

  /** What `!guess letter` does to a game and what the bot answers. */
  function GuessStep(g: GameState, letter: string): (GameState, Reply)
    requires |g.display| == |g.secret|
  {
    var up := UpperAll(letter);
    if !g.active then (g, NoGame)
    else if !(|up| == 1 && IsLetter(up[0])) then (g, Invalid)
    else if up[0] in g.guessed then (g, AlreadyTried(up[0]))
    else
      var l := up[0];
      if l in g.secret then
        var shown := Revealed(g.secret, g.display, l);
        if Hidden !in shown then (g.(display := shown, guessed := g.guessed + {l}, active := false), Won(shown))
        else (g.(display := shown, guessed := g.guessed + {l}), Progress(shown, g.tries))
      else
        var left := g.tries - 1;
        if left <= 0 then (g.(tries := left, guessed := g.guessed + {l}, active := false), Lost(g.secret))
        else (g.(tries := left, guessed := g.guessed + {l}), Progress(g.display, left))
  }

  /** `!hangman` over the stored titles, `choice` being the pick of the random source: no game
      when there is no book, otherwise the game of the chosen title. */
  function Start(titles: seq<string>, choice: nat): (g: Option<GameState>)
    requires titles != [] ==> choice < |titles|
    ensures g.None? <==> titles == []
    ensures g.Some? ==> g.value == NewGame(titles[choice]) && ValidState(g.value)
  {
    if titles == [] then None
    else
      NewGameValid(titles[choice]);
      Some(NewGame(titles[choice]))
  }

  /** A new game is well formed, shows every letter hidden and has all its tries. */
  lemma NewGameValid(title: string)
    ensures ValidState(NewGame(title))
    ensures forall i :: 0 <= i < |title| ==> NewGame(title).display[i] == if IsLetter(title[i]) then Hidden else ' '
  {
    assert {} - Letters(SecretOf(title)) == {};
  }

  /** A new letter that occurs keeps the game well formed. */
  lemma HitKeepsValid(g: GameState, l: char)
    requires ValidState(g) && 'A' <= l <= 'Z' && l !in g.guessed && l in g.secret
    ensures var shown := Revealed(g.secret, g.display, l);
            && ValidState(g.(display := shown, guessed := g.guessed + {l}, active := false))
            && (Hidden in shown ==> ValidState(g.(display := shown, guessed := g.guessed + {l})))
  {
    MissesAfterGuess(g.secret, g.guessed, l);
    InSecretIsLetter(g.secret, l);
    RevealIsMask(g.secret, g.guessed, l);
  }

  /** A new letter that does not occur keeps the game well formed. */
  lemma MissKeepsValid(g: GameState, l: char)
    requires ValidState(g) && 'A' <= l <= 'Z' && l !in g.guessed && l !in g.secret
    ensures ValidState(g.(tries := g.tries - 1, guessed := g.guessed + {l}, active := false))
    ensures g.tries - 1 > 0 ==> ValidState(g.(tries := g.tries - 1, guessed := g.guessed + {l}))
  {
    MissesAfterGuess(g.secret, g.guessed, l);
    InSecretIsLetter(g.secret, l);
    MaskIgnoresAbsent(g.secret, g.guessed, l);
  }

  /** A guess keeps the game well formed: the display still shows exactly the guessed letters and
      the tries left still count the missed ones. */
  lemma GuessKeepsValid(g: GameState, letter: string)
    requires ValidState(g)
    ensures ValidState(GuessStep(g, letter).0)
  {
    var up := UpperAll(letter);
    if g.active && |up| == 1 && IsLetter(up[0]) && up[0] !in g.guessed {
      var l := up[0];
      if l in g.secret {
        HitKeepsValid(g, l);
      } else {
        MissKeepsValid(g, l);
      }
    }
  }

  /** A new letter that occurs is shown at each of its places at no cost, and the game is won once
      every letter is guessed; a new letter that does not occur costs a try, and the game is lost
      when none is left. Without a game, with anything but one letter, or with a letter already
      tried, nothing changes. */
  lemma GuessStepSpec(g: GameState, letter: string)
    requires ValidState(g)
    ensures GuessStep(g, letter).0.secret == g.secret
    ensures !g.active ==> GuessStep(g, letter) == (g, NoGame)
    ensures g.active && !(|letter| == 1 && IsLetter(letter[0])) ==> GuessStep(g, letter) == (g, Invalid)
    ensures g.active && |letter| == 1 && IsLetter(letter[0]) && Upper(letter[0]) in g.guessed ==>
              GuessStep(g, letter) == (g, AlreadyTried(Upper(letter[0])))
    ensures g.active && |letter| == 1 && IsLetter(letter[0]) && Upper(letter[0]) !in g.guessed ==>
              var l := Upper(letter[0]);
              var (h, reply) := GuessStep(g, letter);
              && h.guessed == g.guessed + {l}
              && h.display == Mask(g.secret, h.guessed)
              && (l in Letters(g.secret) ==>
                    && h.tries == g.tries
                    && h.active == !(Letters(g.secret) <= h.guessed)
                    && reply == if h.active then Progress(h.display, h.tries) else Won(h.display))
              && (l !in Letters(g.secret) ==>
                    && h.tries == g.tries - 1
                    && h.display == g.display
                    && h.active == (h.tries > 0)
                    && reply == if h.active then Progress(h.display, h.tries) else Lost(g.secret))
  {
    var up := UpperAll(letter);
    if g.active && |up| == 1 && IsLetter(up[0]) && up[0] !in g.guessed {
      var l := up[0];
      assert l == Upper(letter[0]);
      InSecretIsLetter(g.secret, l);
      if l in g.secret {
        RevealIsMask(g.secret, g.guessed, l);
        WonIffAllLettersGuessed(g.secret, g.guessed + {l});
      } else {
        MaskIgnoresAbsent(g.secret, g.guessed, l);
      }
    }
  }

  /** The game of one channel. */
  class Game {
    var secret: string
    var display: seq<char>
    var tries: int
    var guessed: set<char>
    var active: bool

    function State(): GameState
      reads this
    {
      GameState(secret, display, tries, guessed, active)
    }

    /** `!hangman` with the chosen title. */
    constructor (title: string)
      ensures State() == NewGame(title)
    {
      secret := SecretOf(title);
      display := Mask(SecretOf(title), {});
      tries := StartTries;
      guessed := {};
      active := true;
    }

    /** `!guess letter`: checks the letter, records it, and either reveals it in place or spends
        a try; a won or lost game is marked finished in the same step as the reply. */
    method Guess(letter: string) returns (reply: Reply)
      requires ValidState(State())
      modifies this
      ensures (State(), reply) == GuessStep(old(State()), letter)
    {
      var up := UpperAll(letter);
      if !active {
        reply := NoGame;
      } else if !(|up| == 1 && IsLetter(up[0])) {
        reply := Invalid;
      } else if up[0] in guessed {
        reply := AlreadyTried(up[0]);
      } else {
        var l := up[0];
        guessed := guessed + {l};
        if l in secret {
          display := Reveal(secret, display, l);
          if Hidden !in display {
            active := false;
            reply := Won(display);
          } else {
            reply := Progress(display, tries);
          }
        } else {
          tries := tries - 1;
          if tries <= 0 {
            active := false;
            reply := Lost(secret);
          } else {
            reply := Progress(display, tries);
          }
        }
      }
    }
  }
}
