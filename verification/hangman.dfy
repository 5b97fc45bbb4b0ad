/** The Hangman round engine: three fixed word banks, a seven-drawing
    gallows, and one round as a state machine over the secret word, the set
    of letters guessed so far and the number of wrong guesses. */
module Hangman {

  import opened Wrappers
  import opened Text
  import Seqs

  const Easy: seq<string> := ["cat", "dog", "sun", "car", "book"]
  const Medium: seq<string> := ["orange", "guitar", "planet", "castle", "garden"]
  const Hard: seq<string> := ["elephant", "programming", "challenge", "encyclopedia", "microprocessor"]

  /** The gallows drawings, indexed by the number of wrong guesses. */
  const Stages: seq<string> := [
    " +---+\n     |   |\n         |\n         |\n         |\n         |\n  =========",
    " +---+\n     |   |\n     O   |\n         |\n         |\n         |\n  =========",
    " +---+\n     |   |\n     O   |\n     |   |\n         |\n         |\n  =========",
    " +---+\n     |   |\n     O   |\n    /|   |\n         |\n         |\n  =========",
    " +---+\n     |   |\n     O   |\n    /|\\  |\n         |\n         |\n  =========",
    " +---+\n     |   |\n     O   |\n    /|\\  |\n    /    |\n         |\n  =========",
    " +---+\n     |   |\n     O   |\n    /|\\  |\n    / \\  |\n         |\n  ========="]

  /** `MAX_WRONG`, defined in the source as one less than the number of
      drawings; the literal keeps the drawings out of the arithmetic, and
      StagesCount ties the two together. */
  const MaxWrong: nat := 6

  lemma StagesCount()
    ensures MaxWrong == |Stages| - 1
  {
  }

  // ----- word banks -----

  /** What the difficulty prompt leads to: a bank to draw from, the end of
      the session, or another prompt. */
  datatype Setup = Play(bank: seq<string>) | Exit | Retry

  /** The difficulty choice of `setupGame` on the normalised answer: the
      three tier names and "exit" are recognised, anything else asks again. */
  function ChooseTier(diff: string): (s: Setup)
    ensures s.Exit? <==> diff == "exit"
    ensures diff == "easy" <==> s == Play(Easy)
    ensures diff == "medium" <==> s == Play(Medium)
    ensures diff == "hard" <==> s == Play(Hard)
    ensures s.Play? ==> |s.bank| == 5
    ensures s.Retry? <==> diff !in ["easy", "medium", "hard", "exit"]
  {
    if diff == "easy" then Play(Easy)
    else if diff == "medium" then Play(Medium)
    else if diff == "hard" then Play(Hard)
    else if diff == "exit" then Exit
    else Retry
  }

  /** `setupGame` reads a line, trims and lower-cases it, and chooses by the
      result. */
  function ChooseBank(line: string): (s: Setup)
    ensures s.Exit? <==> Lower(Trim(line)) == "exit"
    ensures s.Play? ==> s.bank in [Easy, Medium, Hard]
    ensures s.Retry? <==> Lower(Trim(line)) !in ["easy", "medium", "hard", "exit"]
  {
    ChooseTier(Lower(Trim(line)))
  }

  /** `selectRandomWord`: `pick` is the value `Random.nextInt(bank.length)`
      returned, which lies in [0, bank.length). */
  function SelectRandomWord(bank: seq<string>, pick: int): (w: string)
    requires 0 <= pick < |bank|
    ensures w in bank
  {
    bank[pick]
  }

  /** A word the round can be played with: non-empty, lower-case letters. */
  predicate IsPlayable(w: string) {
    |w| > 0 && forall i :: 0 <= i < |w| ==> IsLower(w[i])
  }

  /** Every word of every bank is playable. */
  lemma BanksArePlayable()
    ensures forall w :: w in Easy + Medium + Hard ==> IsPlayable(w)
  {
  }

  // ----- rendering -----

  /** The drawing index of `drawHangman`: `Math.min(wrong, MAX_WRONG)`.
      The count is never negative where the source calls it. */
  function StageIndex(wrong: nat): (i: nat)
    ensures i < |Stages|
    ensures wrong <= MaxWrong ==> i == wrong
    ensures wrong >= MaxWrong ==> i == MaxWrong
  {
    StagesCount();
    if wrong < MaxWrong then wrong else MaxWrong
  }

  /** `drawHangman`: the drawing for the current wrong count; from
      MAX_WRONG on, the full gallows. */
  function DrawHangman(wrong: nat): (s: string)
    ensures s in Stages
    ensures wrong >= MaxWrong ==> s == Stages[|Stages| - 1]
  {
    Stages[StageIndex(wrong)]
  }

  /** A character of the word as shown: itself if guessed, `_` otherwise. */
  function Mask(c: char, guessed: set<char>): char {
    if c in guessed then c else '_'
  }

  /** The builder contents of `displayWordProgress` before the final trim:
      every shown character followed by one space. */
  function RawProgress(word: string, guessed: set<char>): (r: string)
    ensures |r| == 2 * |word|
    ensures forall i :: 0 <= i < |word| ==> r[2 * i] == Mask(word[i], guessed) && r[2 * i + 1] == ' '
  {
    if |word| == 0 then []
    else
      var rest := RawProgress(word[1..], guessed);
      var r := [Mask(word[0], guessed), ' '] + rest;
      assert forall i :: 1 <= i < |word| ==> r[2 * i] == Mask(word[i], guessed) && r[2 * i + 1] == ' ' by {
        forall i | 1 <= i < |word| ensures r[2 * i] == Mask(word[i], guessed) && r[2 * i + 1] == ' ' {
          var j := i - 1;
          assert word[i] == word[1..][j];
          assert 2 * i == 2 * j + 2;
          assert r[2 * j + 2] == rest[2 * j] && r[2 * j + 3] == rest[2 * j + 1];
        }
      }
      r
  }

  /** `displayWordProgress`: the builder contents, trimmed. */
  function DisplayWordProgress(word: string, guessed: set<char>): (s: string)
    ensures |s| <= 2 * |word|
    ensures |s| > 0 ==> s[0] != ' ' && s[|s| - 1] != ' '
  {
    Trim(RawProgress(word, guessed))
  }

  /** For a word without control or space characters, the progress line
      shows each character of the word in order, masked, separated by single
      spaces and without a trailing space: 2n-1 characters for n >= 1. */
  lemma DisplayWordProgressShape(word: string, guessed: set<char>)
    requires forall i :: 0 <= i < |word| ==> !IsTrimmable(word[i])
    ensures var r := DisplayWordProgress(word, guessed);
      && |r| == (if |word| == 0 then 0 else 2 * |word| - 1)
      && (forall i :: 0 <= i < |word| ==> r[2 * i] == Mask(word[i], guessed))
      && (forall i :: 0 <= i < |word| - 1 ==> r[2 * i + 1] == ' ')
  {
    var raw := RawProgress(word, guessed);
    if |word| > 0 {
      var n := |word|;
      assert raw[0] == Mask(word[0], guessed);
      Text.TrimStartKeeps(raw);
      assert raw[2 * n - 2] == Mask(word[n - 1], guessed);
      Text.TrimEndDropsLast(raw);
    }
  }

  // ----- win test and score -----

  /** Every character of the word has been guessed. */
  predicate Revealed(word: string, guessed: set<char>) {
    forall i :: 0 <= i < |word| ==> word[i] in guessed
  }

  /** `isGameWon`: scans the word and stops at the first character that has
      not been guessed. */
  method IsGameWon(word: string, guessed: set<char>) returns (won: bool)
    ensures won <==> (set c | c in word) <= guessed
    ensures won <==> Revealed(word, guessed)
  {
    var i := 0;
    while i < |word|
      invariant 0 <= i <= |word|
      invariant forall j :: 0 <= j < i ==> word[j] in guessed
    {
      if word[i] !in guessed {
        return false;
      }
      i := i + 1;
    }
    return true;
  }

  /** Guessing more letters never hides a revealed word again. */
  lemma RevealedMonotone(word: string, g1: set<char>, g2: set<char>)
    requires g1 <= g2
    ensures Revealed(word, g1) ==> Revealed(word, g2)
  {
  }

  /** `isLetterInWord`: `word.indexOf(guess) >= 0`. */
  function IsLetterInWord(guess: char, word: string): (b: bool)
    ensures b <==> guess in word
  {
    Seqs.FirstIndex(word, c => c == guess).Some?
  }

  /** `calculateScore`: ten points per letter of the word and five per
      attempt left. */
  function CalculateScore(word: string, attemptsRemaining: int): (s: int)
    ensures 0 <= attemptsRemaining <= MaxWrong ==> 10 * |word| <= s <= 10 * |word| + 5 * MaxWrong
    ensures s % 5 == 0
  {
    |word| * 10 + attemptsRemaining * 5
  }

  // ----- the round -----

  datatype Phase = InProgress | Won | Lost

  datatype Round = Round(word: string, guessed: set<char>, wrong: nat, phase: Phase)

  datatype GuessError = InvalidInput | AlreadyGuessed | RoundOver

  /** The state `play` starts from. */
  function NewRound(word: string): Round {
    Round(word, {}, 0, InProgress)
  }

  /** The input check of `play`: after trim and lower-casing the line must be
      exactly one letter, which becomes the guess. */
  function ParseGuess(line: string): (g: Option<char>)
    ensures g.None? <==> |Trim(line)| != 1 || !IsLetter(Trim(line)[0])
    ensures g.Some? ==> IsLower(g.value) && g.value == LowerChar(Trim(line)[0])
  {
    var input := Lower(Trim(line));
    if |input| != 1 || !IsLetter(input[0]) then None else Some(input[0])
  }

  /** A line holding just one lower-case letter is accepted as that letter. */
  lemma ParseSingleLetter(c: char)
    requires IsLower(c)
    ensures ParseGuess([c]) == Some(c)
  {
    assert TrimStart([c]) == [c];
    assert TrimEnd([c]) == [c];
  }

  /** One pass of the `play` loop on one input line. The source leaves the
      loop once the round is over, so no line is read afterwards; the model
      reports that case as RoundOver. */
  function Guess(r: Round, line: string): (res: Result<Round, GuessError>)
    ensures r.phase != InProgress ==> res == Failure(RoundOver)
    ensures r.phase == InProgress && ParseGuess(line).None? ==> res == Failure(InvalidInput)
    ensures (r.phase == InProgress && ParseGuess(line).Some? && ParseGuess(line).value in r.guessed)
              ==> res == Failure(AlreadyGuessed)
    ensures (r.phase == InProgress && ParseGuess(line).Some? && ParseGuess(line).value !in r.guessed)
              ==> res.Success?
    ensures res.Success? ==>
              var g := ParseGuess(line).value;
              && r.phase == InProgress
              && g !in r.guessed
              && res.value.word == r.word
              && res.value.guessed == r.guessed + {g}
              && (g in r.word ==> res.value.wrong == r.wrong)
              && (g !in r.word ==> res.value.wrong == r.wrong + 1)
              && (res.value.phase == Won <==> g in r.word && Revealed(r.word, res.value.guessed))
              && (res.value.phase == Lost <==> g !in r.word && r.wrong + 1 >= MaxWrong)
  {
    if r.phase != InProgress then Failure(RoundOver)
    else match ParseGuess(line)
      case None => Failure(InvalidInput)
      case Some(g) =>
        if g in r.guessed then Failure(AlreadyGuessed)
        else
          var guessed := r.guessed + {g};
          if IsLetterInWord(g, r.word) then
            Success(Round(r.word, guessed, r.wrong, if Revealed(r.word, guessed) then Won else InProgress))
          else
            var wrong := r.wrong + 1;
            Success(Round(r.word, guessed, wrong, if wrong >= MaxWrong then Lost else InProgress))
  }

  /** The guessed letters that do not occur in the word. */
  ghost function Misses(word: string, guessed: set<char>): set<char> {
    set c | c in guessed && c !in word
  }

  /** The guessed letters that occur in the word. */
  ghost function Hits(word: string, guessed: set<char>): set<char> {
    set c | c in guessed && c in word
  }

  /** The distinct characters of the word. */
  ghost function Letters(word: string): set<char> {
    set c | c in word
  }

  /** What holds of every round `play` can reach. */
  ghost predicate Valid(r: Round) {
    && (forall c :: c in r.guessed ==> IsLower(c))
    && r.wrong == |Misses(r.word, r.guessed)|
    && r.wrong <= MaxWrong
    && (r.phase == Lost <==> r.wrong == MaxWrong)
    && (r.phase == Won ==> Revealed(r.word, r.guessed))
    && (r.phase == InProgress && |r.word| > 0 ==> !Revealed(r.word, r.guessed))
  }

  lemma NewRoundValid(word: string)
    ensures Valid(NewRound(word))
  {
    assert Misses(word, {}) == {};
    if |word| > 0 {
      var none: set<char> := {};
      assert word[0] !in none;
      assert !Revealed(word, none);
    }
  }

  /** Each accepted guess keeps the round valid; in particular the wrong
      count stays equal to the number of guessed letters absent from the
      word and never passes MaxWrong. */
  lemma GuessPreservesValid(r: Round, line: string)
    requires Valid(r)
    requires Guess(r, line).Success?
    ensures Valid(Guess(r, line).value)
  {
    var g := ParseGuess(line).value;
    var r' := Guess(r, line).value;
    if g in r.word {
      assert Misses(r.word, r'.guessed) == Misses(r.word, r.guessed);
    } else {
      assert Misses(r.word, r'.guessed) == Misses(r.word, r.guessed) + {g};
      assert g !in Misses(r.word, r.guessed);
      if r'.phase == InProgress && |r.word| > 0 {
        assert !Revealed(r.word, r.guessed);
        var i :| 0 <= i < |r.word| && r.word[i] !in r.guessed;
        assert r.word[i] != g;
      }
    }
  }

  /** In a valid round the guessed letters split into at most |Letters|
      hits and at most MaxWrong misses; while the round is in progress on a
      non-empty word one of the two is strictly below its bound. */
  lemma {:induction false} GuessedBound(r: Round)
    requires Valid(r)
    ensures |r.guessed| <= |Letters(r.word)| + MaxWrong
    ensures r.phase == InProgress && |r.word| > 0 ==> |r.guessed| < |Letters(r.word)| + MaxWrong
  {
    var hits := Hits(r.word, r.guessed);
    var misses := Misses(r.word, r.guessed);
    assert r.guessed == hits + misses;
    assert hits * misses == {};
    assert |r.guessed| == |hits| + |misses|;
    var unseen := Letters(r.word) - hits;
    assert Letters(r.word) == hits + unseen;
    assert hits * unseen == {};
    assert |Letters(r.word)| == |hits| + |unseen|;
    if r.phase == InProgress && |r.word| > 0 {
      var i :| 0 <= i < |r.word| && r.word[i] !in r.guessed;
      assert r.word[i] in unseen;
      assert |r.guessed| < |Letters(r.word)| + MaxWrong;
    }
  }

  /** The `play` loop over a list of input lines: rejected lines are skipped,
      and the lines after the end of the round are never read. */
  function PlayLines(r: Round, lines: seq<string>): Round
    decreases |lines|
  {
    if |lines| == 0 || r.phase != InProgress then r
    else match Guess(r, lines[0])
      case Success(r') => PlayLines(r', lines[1..])
      case Failure(_) => PlayLines(r, lines[1..])
  }

  /** Playing any input keeps a valid round valid and only adds letters;
      the round therefore ends after at most |Letters(word)| + MaxWrong
      accepted guesses (see GuessedBound). */
  lemma {:induction false} PlayLinesValid(r: Round, lines: seq<string>)
    requires Valid(r)
    ensures Valid(PlayLines(r, lines))
    ensures PlayLines(r, lines).word == r.word
    ensures r.guessed <= PlayLines(r, lines).guessed
    decreases |lines|
  {
    if |lines| > 0 && r.phase == InProgress {
      match Guess(r, lines[0])
      case Success(r') =>
        GuessPreservesValid(r, lines[0]);
        PlayLinesValid(r', lines[1..]);
      case Failure(_) =>
        PlayLinesValid(r, lines[1..]);
    }
  }

  /** The score printed on a win: `calculateScore(word, MAX_WRONG - wrong)`. */
  function WinScore(r: Round): int
    requires r.phase == Won
  {
    CalculateScore(r.word, MaxWrong - r.wrong)
  }

  /** A won round has at least one attempt left, so the score lies between
      10|word| + 5 and 10|word| + 30. */
  lemma WinScoreBounds(r: Round)
    requires Valid(r) && r.phase == Won
    ensures 1 <= MaxWrong - r.wrong <= MaxWrong
    ensures 10 * |r.word| + 5 <= WinScore(r) <= 10 * |r.word| + 30
  {
  }

  /** The progress line of "cat" for any guessed set. */
  lemma CatProgress(guessed: set<char>)
    ensures DisplayWordProgress("cat", guessed) == [Mask('c', guessed), ' ', Mask('a', guessed), ' ', Mask('t', guessed)]
  {
    var w := "cat";
    assert w[0] == 'c' && w[1] == 'a' && w[2] == 't';
    DisplayWordProgressShape(w, guessed);
  }

  /** The worked example's progress lines: "cat" after guessing c, then a,
      then t shows "c _ _", "c a _" and "c a t". */
  lemma CatProgressExample()
    ensures DisplayWordProgress("cat", {'c'}) == "c _ _"
    ensures DisplayWordProgress("cat", {'c', 'a'}) == "c a _"
    ensures DisplayWordProgress("cat", {'c', 'a', 't'}) == "c a t"
  {
    CatProgress({'c'});
    CatProgress({'c', 'a'});
    CatProgress({'c', 'a', 't'});
  }

  /** An accepted letter that occurs in the word keeps the wrong count and
      wins exactly when it completes the word. */
  lemma HitStep(r: Round, c: char, phase: Phase)
    requires r.phase == InProgress && IsLower(c) && c !in r.guessed && c in r.word
    requires phase == (if Revealed(r.word, r.guessed + {c}) then Won else InProgress)
    ensures Guess(r, [c]) == Success(Round(r.word, r.guessed + {c}, r.wrong, phase))
  {
    ParseSingleLetter(c);
  }

  /** The word is revealed exactly when all of its distinct letters are
      guessed. */
  lemma RevealedIffLetters(word: string, guessed: set<char>)
    ensures Revealed(word, guessed) <==> Letters(word) <= guessed
  {
    if Letters(word) <= guessed {
      forall i | 0 <= i < |word| ensures word[i] in guessed {
        assert word[i] in Letters(word);
      }
    }
  }

  /** A subset as large as its superset is the whole superset. */
  lemma SubsetCard(a: set<char>, b: set<char>)
    requires a <= b
    ensures |a| <= |b|
    ensures |a| == |b| ==> a == b
  {
    var rest := b - a;
    assert b == a + rest && a * rest == {};
    assert |b| == |a| + |rest|;
  }

  /** A hit on a letter not yet guessed adds it to the guessed set, keeps
      the wrong count, and wins exactly when it was the last distinct letter
      of the word still missing; play then goes on from the new round. */
  lemma HitNext(r: Round, lines: seq<string>) returns (r': Round)
    requires r.phase == InProgress && |lines| > 0 && IsLetterLine(lines[0])
    requires lines[0][0] in r.word && lines[0][0] !in r.guessed
    requires r.guessed <= Letters(r.word)
    ensures PlayLines(r, lines) == PlayLines(r', lines[1..])
    ensures r'.word == r.word && r'.guessed == r.guessed + {lines[0][0]} && r'.wrong == r.wrong
    ensures r'.guessed <= Letters(r.word) && |r'.guessed| == |r.guessed| + 1
    ensures r'.phase == (if |r'.guessed| == |Letters(r.word)| then Won else InProgress)
  {
    var c := lines[0][0];
    assert lines[0] == [c];
    var g' := r.guessed + {c};
    assert c in Letters(r.word);
    RevealedIffLetters(r.word, g');
    SubsetCard(g', Letters(r.word));
    assert Revealed(r.word, g') <==> g' == Letters(r.word);
    var phase := if Revealed(r.word, g') then Won else InProgress;
    HitStep(r, c, phase);
    r' := Round(r.word, g', r.wrong, phase);
    assert Guess(r, lines[0]) == Success(r');
  }

  /** The lines after the first hit are still distinct letters of the word
      that have not been guessed. */
  lemma HitsTail(r: Round, lines: seq<string>, r': Round)
    requires |lines| > 0 && |lines[0]| == 1
    requires forall i :: 0 <= i < |lines| ==> IsLetterLine(lines[i]) && lines[i][0] in r.word && lines[i][0] !in r.guessed
    requires forall i, j :: 0 <= i < j < |lines| ==> lines[i] != lines[j]
    requires r'.word == r.word && r'.guessed == r.guessed + {lines[0][0]}
    ensures forall i :: 0 <= i < |lines[1..]| ==>
      IsLetterLine(lines[1..][i]) && lines[1..][i][0] in r'.word && lines[1..][i][0] !in r'.guessed
    ensures forall i, j :: 0 <= i < j < |lines[1..]| ==> lines[1..][i] != lines[1..][j]
  {
    var rest := lines[1..];
    forall i | 0 <= i < |rest|
      ensures IsLetterLine(rest[i]) && rest[i][0] in r'.word && rest[i][0] !in r'.guessed
    {
      assert rest[i] == lines[i + 1] != lines[0];
    }
    forall i, j | 0 <= i < j < |rest| ensures rest[i] != rest[j] {
      assert rest[i] == lines[i + 1] && rest[j] == lines[j + 1];
    }
  }

  /** Guessing each remaining distinct letter of the word once, in any
      order and without a miss, wins the round on the last of them and
      leaves the wrong count as it was. */
  lemma {:induction false} HitsWin(r: Round, lines: seq<string>)
    requires r.phase == InProgress && |lines| > 0
    requires r.guessed <= Letters(r.word)
    requires forall i :: 0 <= i < |lines| ==> IsLetterLine(lines[i]) && lines[i][0] in r.word && lines[i][0] !in r.guessed
    requires forall i, j :: 0 <= i < j < |lines| ==> lines[i] != lines[j]
    requires |r.guessed| + |lines| == |Letters(r.word)|
    ensures PlayLines(r, lines).phase == Won
    ensures PlayLines(r, lines).wrong == r.wrong
    ensures PlayLines(r, lines).word == r.word
    decreases |lines|
  {
    var r' := HitNext(r, lines);
    if |lines| == 1 {
      assert PlayLines(r', lines[1..]) == r';
    } else {
      HitsTail(r, lines, r');
      HitsWin(r', lines[1..]);
    }
  }

  /** A round on a playable word where each distinct letter is guessed once
      and nothing else is guessed is won with no miss. */
  lemma PerfectRoundWins(word: string, lines: seq<string>)
    requires IsPlayable(word)
    requires |lines| == |Letters(word)|
    requires forall i :: 0 <= i < |lines| ==> IsLetterLine(lines[i]) && lines[i][0] in word
    requires forall i, j :: 0 <= i < j < |lines| ==> lines[i] != lines[j]
    ensures var r := PlayLines(NewRound(word), lines);
      r.phase == Won && r.wrong == 0 && r.word == word
  {
    assert word[0] in Letters(word);
    var none: set<char> := {};
    assert |none| == 0;
    HitsWin(NewRound(word), lines);
  }

  /** A win without a miss scores the full 30 bonus points. */
  lemma FlawlessWinScore(r: Round)
    requires r.phase == Won && r.wrong == 0
    ensures WinScore(r) == 10 * |r.word| + 30
  {
  }

  /** Such a perfect round scores 10|word| + 30. */
  lemma PerfectRoundScore(word: string, lines: seq<string>)
    requires IsPlayable(word)
    requires |lines| == |Letters(word)|
    requires forall i :: 0 <= i < |lines| ==> IsLetterLine(lines[i]) && lines[i][0] in word
    requires forall i, j :: 0 <= i < j < |lines| ==> lines[i] != lines[j]
    ensures var r := PlayLines(NewRound(word), lines);
      r.phase == Won && r.wrong == 0 && WinScore(r) == 10 * |word| + 30
  {
    PerfectRoundWins(word, lines);
    FlawlessWinScore(PlayLines(NewRound(word), lines));
  }

  /** The worked example's round: "cat" guessed c, a, t is won without a
      miss and scores 3 * 10 + 6 * 5 = 60. */
  lemma CatRoundExample()
    ensures var r := PlayLines(NewRound("cat"), ["c", "a", "t"]);
      r.phase == Won && r.wrong == 0 && WinScore(r) == 60
  {
    var w, lines := "cat", ["c", "a", "t"];
    assert w[0] == 'c' && w[1] == 'a' && w[2] == 't';
    assert Letters(w) == {'c', 'a', 't'};
    assert lines[0] == "c" && lines[1] == "a" && lines[2] == "t";
    PerfectRoundScore(w, lines);
  }

  /** An accepted letter absent from the word costs one attempt and loses
      the round on reaching MaxWrong. */
  lemma MissStep(r: Round, c: char)
    requires r.phase == InProgress && IsLower(c) && c !in r.guessed && c !in r.word
    ensures Guess(r, [c]) == Success(Round(r.word, r.guessed + {c}, r.wrong + 1,
                                           if r.wrong + 1 >= MaxWrong then Lost else InProgress))
  {
    ParseSingleLetter(c);
  }

  /** A single-letter input line. */
  predicate IsLetterLine(line: string) {
    |line| == 1 && IsLower(line[0])
  }

  /** Distinct letters, none guessed yet and none in the word, that use up
      exactly the attempts left lose the round. */
  lemma {:induction false} MissesLose(r: Round, lines: seq<string>)
    requires r.phase == InProgress && |lines| > 0 && r.wrong + |lines| == MaxWrong
    requires forall i :: 0 <= i < |lines| ==> IsLetterLine(lines[i]) && lines[i][0] !in r.word && lines[i][0] !in r.guessed
    requires forall i, j :: 0 <= i < j < |lines| ==> lines[i] != lines[j]
    ensures PlayLines(r, lines).phase == Lost
    ensures PlayLines(r, lines).wrong == MaxWrong
    decreases |lines|
  {
    var c := lines[0][0];
    assert lines[0] == [c];
    MissStep(r, c);
    var r' := Guess(r, lines[0]).value;
    if |lines| > 1 {
      forall i | 0 <= i < |lines[1..]|
        ensures lines[1..][i][0] !in r'.guessed
      {
        assert lines[1..][i] == lines[i + 1] != lines[0];
        assert |lines[i + 1]| == 1;
      }
      MissesLose(r', lines[1..]);
    }
  }

  /** The worked example of a loss: six letters absent from "dog" lose the
      round, and a seventh guess is refused. */
  lemma DogRoundExample()
    ensures var r := PlayLines(NewRound("dog"), ["x", "y", "z", "w", "v", "u"]);
      r.phase == Lost && r.wrong == MaxWrong && Guess(r, "t") == Failure(RoundOver)
  {
    MissesLose(NewRound("dog"), ["x", "y", "z", "w", "v", "u"]);
  }
}
