# Console exercise tools, modelled in Dafny

This project models the deterministic core of ten small Java console tools:

- a Hangman game;
- a password manager;
- a contact directory;
- an inventory manager;
- a library book manager;
- a task manager;
- a bank account manager;
- a quiz game;
- a student grade calculator;
- an expense tracker.

Console I/O, randomness and the clock are removed. What remains is modelled as immutable records (`datatype`) and pure transitions returning `Result<new state, error>` over `seq`-based registries. Each registry carries its own next-id counter in place of the source's static `NEXT_ID` fields. The Hangman round is an explicit state machine over the secret word, the set of guessed letters, the wrong-guess count and a phase (in progress, won, lost).

Module layout:

| module | file | models |
|---|---|---|
| `Wrappers` | wrappers.dfy | `Option`, `Result` (Java `null` and exceptions) |
| `Text` | text.dfy | `String.trim`, `isBlank`, `toLowerCase`, `equalsIgnoreCase`, `contains` (ASCII) |
| `Seqs` | seqs.dfy | order-preserving filters and first-match search (`stream().filter`, `findFirst`) |
| `Dates` | dates.dfy | an abstract (year, month, day) date with `isBefore` |
| `Hangman` | hangman.dfy | Hangman/HangmanGame.java |
| `PasswordManager` | password_manager.dfy | PasswordManager/PasswordManagerCLI.java |
| `Contacts`, `ContactDirectory` | contact.dfy, contact_directory.dfy | ContactDirectory/*.java |
| `Products`, `Inventory` | product.dfy, inventory.dfy | InventoryManagement/*.java |
| `Books`, `Library` | book.dfy, library.dfy | LibraryManagement/*.java |
| `Tasks`, `TaskManager` | task.dfy, task_manager.dfy | TaskManagement/*.java |
| `Accounts`, `Banking` | account.dfy, banking.dfy | BankAccount/*.java |
| `Questions`, `QuizScoring`, `Quiz`, `Percent` | question.dfy, quiz.dfy, percent.dfy | QuizGame/*.java |
| `StudentGrades` | student_grade.dfy | Student_Grade/StudentGradeCalculator.java |
| `Expenses`, `ExpenseTracker` | expense.dfy, expense_tracker.dfy | ExpenseTracker/*.java |

Every id-keyed registry (contacts, products, books, tasks, accounts, expenses) has a `Valid` predicate. It says ids run consecutively from the first id in list order, the counter is the next unused id, and every record passed its constructor's checks. One lemma per registry shows that every successful operation keeps `Valid`. For the registries looked up by id (all but the expenses), another shows that, on a valid registry, the first-match lookup by id finds position `id - first`. The password list, the gradebook and the quiz bank carry no ids. The gradebook has its own `Valid` (names and grades in step, grades in range); the other two have their properties stated per operation.

## Model

| member | source | states |
|---|---|---|
| Hangman.StagesCount | Hangman/HangmanGame.java:16-25 | MAX_WRONG is one less than the number of gallows drawings: 6 against 7 |
| Hangman.StageIndex | Hangman/HangmanGame.java:117-119 | the drawing shown is the wrong count clamped at MAX_WRONG; it is always a valid index into the drawings, and counts above 6 show the last one |
| Hangman.DrawHangman | Hangman/HangmanGame.java:117-119 | the drawing printed is always one of the seven stages, and from MAX_WRONG wrong guesses on it is the full gallows |
| Hangman.ChooseTier | Hangman/HangmanGame.java:42-51 | "easy", "medium" and "hard" each select their own five-word bank, and only that answer selects it; "exit" ends the session; every other answer asks again |
| Hangman.ChooseBank | Hangman/HangmanGame.java:38-52 | the answer is trimmed and lower-cased first; it ends the session exactly for "exit" and asks again exactly for an answer outside the four keywords; otherwise the result is one of the three banks |
| Hangman.SelectRandomWord | Hangman/HangmanGame.java:96-98 | the chosen word belongs to the chosen bank |
| Hangman.BanksArePlayable | Hangman/HangmanGame.java:12-14 | every word of the three banks is non-empty and made of lower-case letters, so it can be won by letter guesses |
| Hangman.RawProgress | Hangman/HangmanGame.java:104-109 | before the final trim, the text has two characters per letter: the letter if guessed, `_` otherwise, then a space |
| Hangman.DisplayWordProgressShape | Hangman/HangmanGame.java:104-111 | for a word without blanks, the progress text has length 2n-1 (0 for the empty word); position 2i shows letter i or `_`, single spaces sit between them, and there is no trailing space |
| Hangman.DisplayWordProgress | Hangman/HangmanGame.java:104-111 | the progress text is at most two characters per letter of the word and neither starts nor ends with a space |
| Hangman.CatProgressExample | Hangman/HangmanGame.java:104-111 | "cat" renders as "c _ _", "c a _" and "c a t" as c, a and t are guessed |
| Hangman.IsGameWon | Hangman/HangmanGame.java:121-124 | the scan returns true iff every character of the word is among the guessed letters |
| Hangman.RevealedMonotone | Hangman/HangmanGame.java:121-124 | guessing more letters never turns a revealed word back into an unrevealed one |
| Hangman.IsLetterInWord | Hangman/HangmanGame.java:100-102 | true iff the letter occurs in the word |
| Hangman.ParseGuess | Hangman/HangmanGame.java:63-67 | a line is accepted iff after trimming it is exactly one letter; the guess is that letter in lower case |
| Hangman.ParseSingleLetter | Hangman/HangmanGame.java:63-68 | a line holding one lower-case letter is accepted as that letter |
| Hangman.Guess | Hangman/HangmanGame.java:55-91 | invalid or repeated input is refused; a valid fresh letter in a round still in progress is always accepted; an accepted guess adds exactly that letter; wrong grows by one iff the letter is absent; the round is Won iff a hit completes the word and Lost iff a miss brings wrong to MAX_WRONG |
| Hangman.HitStep | Hangman/HangmanGame.java:73-81 | a fresh letter of the word is added without changing the wrong count |
| Hangman.MissStep | Hangman/HangmanGame.java:82-89 | a fresh letter not in the word is added and costs one attempt; the round is lost when the attempts are used up |
| Hangman.NewRoundValid | Hangman/HangmanGame.java:55-57 | the starting round (no guesses, no misses) satisfies the round invariant |
| Hangman.GuessPreservesValid | Hangman/HangmanGame.java:73-90 | an accepted guess keeps the invariant: wrong equals the number of guessed letters absent from the word and never exceeds MAX_WRONG, Lost iff wrong is MAX_WRONG, and Won only when the word is revealed |
| Hangman.GuessedBound | Hangman/HangmanGame.java:73-90 | a round accepts at most (distinct letters of the word) + MAX_WRONG guesses, and strictly fewer while it is still in progress |
| Hangman.PlayLinesValid | Hangman/HangmanGame.java:58-91 | any sequence of input lines keeps the invariant and the word, and only adds guessed letters |
| Hangman.WinScoreBounds | Hangman/HangmanGame.java:113-115 | on a win at least one attempt remains, so the score lies between 10·\|word\|+5 and 10·\|word\|+30 |
| Hangman.CalculateScore | Hangman/HangmanGame.java:113-115 | the score is a multiple of 5; with 0 to MAX_WRONG attempts left it lies between 10·\|word\| and 10·\|word\|+30 |
| Hangman.HitsWin | Hangman/HangmanGame.java:74-81 | distinct correct letters that complete the word end the round Won, with no change to the wrong count |
| Hangman.PerfectRoundWins | Hangman/HangmanGame.java:55-92 | guessing each distinct letter of a playable word once wins the round with no wrong guess |
| Hangman.PerfectRoundScore | Hangman/HangmanGame.java:76-79 | such a flawless round scores 10·\|word\|+30 |
| Hangman.CatRoundExample | Hangman/HangmanGame.java:55-92 | guessing c, a, t on "cat" wins with score 60 |
| Hangman.MissesLose | Hangman/HangmanGame.java:82-89 | MAX_WRONG minus wrong distinct absent letters end the round Lost with wrong equal to MAX_WRONG |
| Hangman.DogRoundExample | Hangman/HangmanGame.java:82-89 | six misses on "dog" lose the round, and no later guess is accepted |
| PasswordManager.Strength | PasswordManager/PasswordManagerCLI.java:109-118 | the strength score is always even and at most 12 |
| PasswordManager.CalculateStrength | PasswordManager/PasswordManagerCLI.java:109-118 | the character scan computes the score (length tiers plus two points per character class present), an even number from 0 to 12 |
| PasswordManager.SecureByLength | PasswordManager/PasswordManagerCLI.java:120-122 | a password is secure iff its score is at least 8: below 8 characters it needs all four classes, at 8-11 three, at 12 or more two |
| PasswordManager.IsPasswordSecure | PasswordManager/PasswordManagerCLI.java:120-122 | a secure password has at least two character classes, and one with all four classes is secure at any length |
| PasswordManager.RepeatedClassScoresNothing | PasswordManager/PasswordManagerCLI.java:113-116 | appending a character of a class already present, without reaching length 8 or 12, leaves the score unchanged: each class counts once however often it occurs |
| PasswordManager.UpperCharsAreUpper | PasswordManager/PasswordManagerCLI.java:16 | UPPER holds exactly the ASCII upper-case letters |
| PasswordManager.LowerCharsAreLower | PasswordManager/PasswordManagerCLI.java:17 | LOWER holds exactly the ASCII lower-case letters |
| PasswordManager.DigitCharsAreDigits | PasswordManager/PasswordManagerCLI.java:18 | DIGITS holds exactly the ASCII digits |
| PasswordManager.AlphabetIsAlphanumeric | PasswordManager/PasswordManagerCLI.java:101 | without special characters, the generator's alphabet is exactly the ASCII letters and digits |
| PasswordManager.SpecialsAreSeparate | PasswordManager/PasswordManagerCLI.java:19 | no SPECIAL character is a letter or digit; the alphabets have 62 and 88 characters |
| PasswordManager.GeneratePassword | PasswordManager/PasswordManagerCLI.java:100-107 | the password has exactly n characters (none when n ≤ 0); character i is the alphabet entry at the i-th pick; SPECIAL characters appear only when requested |
| PasswordManager.AddPasswordEntry | PasswordManager/PasswordManagerCLI.java:62-75 | exactly one entry is appended, with the trimmed service and user; a blank password is replaced by a generated 12-character one, any other is stored trimmed |
| PasswordManager.WeakEntries | PasswordManager/PasswordManagerCLI.java:86-90 | exactly the stored entries whose password is not secure, in stored order |
| Contacts.PhoneMatchesIff | ContactDirectory/Contact.java:18 | the phone matcher accepts exactly an optional `+` followed by 7 to 15 ASCII digits |
| Contacts.IsValidPhoneIff | ContactDirectory/Contact.java:51-53 | null is invalid; any other phone is valid iff it has the phone syntax |
| Contacts.IsValidPhone | ContactDirectory/Contact.java:51-53 | an accepted phone is non-null, 7 to 16 characters long, and every character after the first is a digit |
| Contacts.EmailMatchesIff | ContactDirectory/Contact.java:17 | the e-mail matcher accepts exactly the language of the intended pattern (`\\w` for the first class): a non-empty run of word characters, dots and hyphens, one `@`, another such run, a dot, and 2 to 6 ASCII letters at the end |
| Contacts.IsValidEmailIff | ContactDirectory/Contact.java:47-49 | null is invalid; any other e-mail is valid iff it has the e-mail syntax |
| Contacts.IsValidEmail | ContactDirectory/Contact.java:47-49 | an accepted e-mail is non-null, contains an `@` and does not start with one |
| Contacts.PhoneExamples | ContactDirectory/Contact.java:18 | "+9779812345678" is a valid phone; "12345" is too short |
| Contacts.EmailAcceptedExample | ContactDirectory/Contact.java:17 | "a.b@c.d.org" is a valid e-mail: the domain run may itself contain dots |
| Contacts.EmailRefusedExample | ContactDirectory/Contact.java:17 | "a@b@c.com" is refused: `@` is not an e-mail run character |
| Contacts.NewContact | ContactDirectory/Contact.java:20-29 | the name is checked first (null or blank), then the phone, then the e-mail, and the first failure is reported; success stores the values with the given id, and a null address becomes "" |
| Contacts.SetPhone | ContactDirectory/Contact.java:37-40 | an invalid phone is refused and changes nothing; a valid one replaces only the phone |
| Contacts.SetEmail | ContactDirectory/Contact.java:42-45 | an invalid e-mail is refused and changes nothing; a valid one replaces only the e-mail |
| ContactDirectory.AddContact | ContactDirectory/ContactDirectoryCLI.java:50-69 | a duplicate (same name ignoring case, or same phone) is reported before any field is validated; success appends exactly one contact with the trimmed fields and the next id; any failure adds nothing |
| ContactDirectory.AddContactValid | ContactDirectory/ContactDirectoryCLI.java:61-67 | a successful add keeps consecutive ids and well-formed contacts |
| ContactDirectory.SearchByKeyword | ContactDirectory/ContactDirectoryCLI.java:71-82 | exactly the contacts whose lower-cased name or e-mail, or whose phone, contains the lower-cased keyword, in list order |
| ContactDirectory.SearchEmptyKeyword | ContactDirectory/ContactDirectoryCLI.java:71-82 | the empty keyword returns every contact |
| ContactDirectory.FindById | ContactDirectory/ContactDirectoryCLI.java:92-94 | the position of the first contact with that id, or none iff no contact has it |
| ContactDirectory.FindByIdValid | ContactDirectory/ContactDirectoryCLI.java:92-94 | in a directory with consecutive ids, id k is found at position k-1, and ids outside the range are not found |
| ContactDirectory.EditContact | ContactDirectory/ContactDirectoryCLI.java:96-108 | an unknown id changes nothing; a blank entry keeps the field; a malformed phone stops the edit with nothing changed; a malformed e-mail is refused after a valid phone change has already been kept; no other error is ever raised; no other contact changes |
| ContactDirectory.EditContactValid | ContactDirectory/ContactDirectoryCLI.java:96-108 | every edit, complete or partial, keeps the directory valid |
| Products.NewProduct | InventoryManagement/Product.java:15-24 | negative quantity, price and reorder level are refused in that order; success stores the values with the given id |
| Products.AddStock | InventoryManagement/Product.java:32-35 | a non-positive amount is refused; otherwise the quantity grows by exactly that amount and nothing else changes |
| Products.RemoveStock | InventoryManagement/Product.java:37-41 | a non-positive amount, then an amount above the stock, is refused; otherwise the quantity drops by exactly that amount, stays non-negative, and nothing else changes |
| Products.AddThenRemoveRestores | InventoryManagement/Product.java:32-41 | adding and then removing the same amount gives back the original product |
| Products.NeedsReorder | InventoryManagement/Product.java:43-45 | a sound product with nothing in stock always needs reordering |
| Products.StockAndReorder | InventoryManagement/Product.java:32-45 | removing stock never clears a reorder need; after adding stock a product needs reordering iff the new quantity is still at or below the reorder level |
| Inventory.FindProduct | InventoryManagement/InventoryManagerCLI.java:52-54 | the position of the first product with that id, or none iff no product has it |
| Inventory.FindProductValid | InventoryManagement/InventoryManagerCLI.java:52-54 | with consecutive ids, id k is found at position k-1 and ids outside the range are not found |
| Inventory.AddProduct | InventoryManagement/InventoryManagerCLI.java:56-64 | exactly one product with the trimmed name is appended iff the constructor accepts the values; otherwise the constructor's error is reported |
| Inventory.AddStockById | InventoryManagement/InventoryManagerCLI.java:66-73 | an unknown id is reported as not found; otherwise the found product's stock operation decides, and only that product changes |
| Inventory.RemoveStockById | InventoryManagement/InventoryManagerCLI.java:75-82 | an unknown id is reported as not found; otherwise the found product's stock operation decides, and only that product changes |
| Inventory.LowStock | InventoryManagement/InventoryManagerCLI.java:84-87 | exactly the products whose quantity is at most their reorder level, in insertion order |
| Inventory.OperationsKeepValid | InventoryManagement/InventoryManagerCLI.java:56-82 | adding a product or changing stock keeps consecutive ids and non-negative fields |
| Books.NewBook | LibraryManagement/Book.java:14-22 | a null or blank title, author, then ISBN is refused in that order; a new book is available |
| Books.Borrow | LibraryManagement/Book.java:44-47 | a borrowed book is refused; an available one becomes unavailable and nothing else changes |
| Books.GiveBack | LibraryManagement/Book.java:49-51 | the book is available afterwards and nothing else changes |
| Books.GiveBackIdempotent | LibraryManagement/Book.java:49-51 | giving a book back twice is the same as once |
| Books.BorrowGiveBackRoundTrip | LibraryManagement/Book.java:44-51 | borrowing and then giving back restores the book; a second borrow is refused until it is given back |
| Library.AddBook | LibraryManagement/LibraryBookManager.java:52-63 | exactly one available book with the trimmed fields is appended iff title, author and ISBN are non-empty; otherwise the first empty field is reported |
| Library.TrimmedFields | LibraryManagement/LibraryBookManager.java:53-60 | on trimmed lines the constructor's blank check is the same as an emptiness check, and success yields a well-formed book |
| Library.SearchBooks | LibraryManagement/LibraryBookManager.java:65-82 | exactly the books whose lower-cased title, author or ISBN contains the trimmed, lower-cased keyword, in insertion order |
| Library.SearchBlankKeyword | LibraryManagement/LibraryBookManager.java:65-75 | a blank keyword returns every book |
| Library.FindBookById | LibraryManagement/LibraryBookManager.java:84-86 | the position of the first book with that id, or none iff no book has it |
| Library.FindBookByIdValid | LibraryManagement/LibraryBookManager.java:84-86 | with consecutive ids, id k is found at position k-1 and ids outside the range are not found |
| Library.BorrowBook | LibraryManagement/LibraryBookManager.java:88-94 | an unknown id is reported as not found; a borrowed book is refused; a known available book is always borrowed, and only that book becomes unavailable |
| Library.ReturnBook | LibraryManagement/LibraryBookManager.java:96-102 | only an unknown id fails; otherwise that book becomes available, even if it already was |
| Library.AddBookValid | LibraryManagement/LibraryBookManager.java:52-63 | a successful add keeps consecutive ids and well-formed books |
| Library.BorrowReturnValid | LibraryManagement/LibraryBookManager.java:88-102 | borrowing and returning keep the library valid |
| Library.BorrowReturnBorrow | LibraryManagement/LibraryBookManager.java:88-102 | a book that was borrowed can be returned and then borrowed again |
| Tasks.NewTask | TaskManagement/Task.java:18-28 | a priority outside 1..5 is refused before the date is looked at; an unparsable date is refused next; success stores a pending task with the given id |
| Tasks.MarkComplete | TaskManagement/Task.java:36-39 | a completed task is refused; a pending one becomes completed and nothing else changes |
| Tasks.CompleteClearsOverdue | TaskManagement/Task.java:36-43 | a task just completed is never overdue, and completing it again is refused |
| Tasks.IsOverdue | TaskManagement/Task.java:41-43 | an overdue task is not completed and is not due today |
| Tasks.OverdueStaysOverdue | TaskManagement/Task.java:41-43 | a task overdue on one day stays overdue on every later day while it is not completed |
| TaskManager.FindTask | TaskManagement/TaskManagerCLI.java:50-52 | the position of the first task with that id, or none iff no task has it |
| TaskManager.FindTaskValid | TaskManagement/TaskManagerCLI.java:50-52 | with consecutive ids, id k is found at position k-1 and ids outside the range are not found |
| TaskManager.AddTask | TaskManagement/TaskManagerCLI.java:54-62 | exactly one task with the trimmed description is appended iff the priority is valid and the date parsed; otherwise the constructor's first error is reported |
| TaskManager.MarkCompleteById | TaskManagement/TaskManagerCLI.java:69-75 | an unknown id is reported as not found; a completed task is refused; a known pending task is always completed, and only that task changes |
| TaskManager.Overdue | TaskManagement/TaskManagerCLI.java:77-80 | exactly the pending tasks due strictly before today, in insertion order |
| TaskManager.CompletionRate | TaskManagement/TaskManagerCLI.java:82-88 | no rate without tasks; otherwise done·100/total, which lies in [0, 100], is 0 iff nothing is done and 100 iff everything is |
| TaskManager.MarkCompleteRaisesRate | TaskManagement/TaskManagerCLI.java:69-88 | completing a task raises the number of completed tasks by exactly one |
| TaskManager.OperationsKeepValid | TaskManagement/TaskManagerCLI.java:54-75 | adding and completing tasks keep consecutive ids and valid priorities |
| Accounts.NewAccount | BankAccount/Account.java:12-17 | a negative initial balance is refused; otherwise the account gets the given number, holder and balance |
| Accounts.Deposit | BankAccount/Account.java:35-38 | a non-positive amount is refused; otherwise the balance grows by exactly that amount and nothing else changes |
| Accounts.Withdraw | BankAccount/Account.java:40-44 | a non-positive amount, then one above the balance, is refused; otherwise the balance drops by exactly that amount and stays non-negative, and withdrawing the whole balance is allowed |
| Accounts.DepositWithdrawRoundTrip | BankAccount/Account.java:35-44 | withdrawing what was just deposited restores the account; the whole balance can be withdrawn, leaving zero |
| Seqs.FirstAccepted | BankAccount/BankingAccountManager.java:129-144 | the retry loop of the `readDouble` helpers: the result is the first entry that parses to an accepted value, and there is none iff no entry does |
| Banking.ReadAmount | BankAccount/BankingAccountManager.java:129-144 | the value returned is the first entry that parses to a non-negative number; there is none iff no entry does |
| Banking.AcceptedAmounts | BankAccount/BankingAccountManager.java:129-144 | every amount the prompt accepts is a valid initial balance, but a zero deposit or withdrawal on an existing account is refused |
| Banking.FindAccount | BankAccount/BankingAccountManager.java:65-70 | the position of the first account with that number, or none iff no account has it |
| Banking.FindAccountValid | BankAccount/BankingAccountManager.java:65-70 | with numbers consecutive from 1001, number n is found at position n-1001 and numbers outside the range are not found |
| Banking.CreateAccount | BankAccount/BankingAccountManager.java:52-63 | an empty trimmed name is refused, then a negative balance; success appends exactly one account with the next number |
| Banking.DepositTo | BankAccount/BankingAccountManager.java:72-82 | an unknown number is reported as not found; otherwise the account's deposit decides, and only that account changes |
| Banking.WithdrawFrom | BankAccount/BankingAccountManager.java:84-94 | an unknown number is reported as not found; otherwise the account's withdraw decides, and only that account changes |
| Banking.CheckBalance | BankAccount/BankingAccountManager.java:96-104 | an unknown number is reported as not found; otherwise the result is the balance of the first account with that number, the one `findAccount` returns |
| Banking.CheckBalanceAfterDeposit | BankAccount/BankingAccountManager.java:73-104 | after a successful deposit the balance shown for that account is the old one plus the amount, and every other account shows what it showed before |
| Banking.CheckBalanceAfterWithdraw | BankAccount/BankingAccountManager.java:73-104 | after a successful withdrawal the balance shown for that account is the old one minus the amount, and every other account shows what it showed before |
| Banking.OperationsKeepValid | BankAccount/BankingAccountManager.java:52-94 | creating accounts, depositing and withdrawing keep consecutive numbers and non-negative balances |
| Questions.NewQuestion | QuizGame/Question.java:12-19 | fewer than two options is refused, then a correct index outside the options; success gives a well-formed question |
| Questions.ExactlyOneCorrect | QuizGame/Question.java:12-26 | a well-formed question has exactly one correct choice, and any out-of-range choice is wrong |
| Questions.IsCorrect | QuizGame/Question.java:26 | on a well-formed question a correct choice is always one of the option indices |
| Percent.Percentage | QuizGame/QuizGameCLI.java:100-102 | part·100/whole, which lies in [0, 100], is 0 iff part is 0 and 100 iff part is whole |
| QuizScoring.CalculateScore | QuizGame/QuizGameCLI.java:94-98 | ten points per true answer, so between 0 and 10 times the number of answers |
| QuizScoring.AccuracyPercentage | QuizGame/QuizGameCLI.java:100-102 | correct·100/total, with no value for total 0 (where Java yields NaN or infinity); it is the bounded percentage when 0 ≤ correct ≤ total |
| QuizScoring.DifficultyLevel | QuizGame/QuizGameCLI.java:104-108 | "Easy" iff accuracy ≥ 90, "Medium" iff 70 ≤ accuracy < 90, "Hard" iff accuracy < 70 |
| QuizScoring.Verdicts | QuizGame/QuizGameCLI.java:67-76 | one verdict per question: answer number i minus one is the correct index of question i |
| QuizScoring.RunQuestions | QuizGame/QuizGameCLI.java:64-83 | the loop records exactly one verdict per question, in order, and its counter equals the number of true verdicts |
| Quiz.BankIsWellFormed | QuizGame/QuizGameCLI.java:13-24 | every seeded question is well formed and filed under its own category |
| Quiz.PlayQuiz | QuizGame/QuizGameCLI.java:55-90 | an unknown or empty category runs no quiz; otherwise the score is 10·correct, the accuracy is the bounded percentage of correct answers, and the level follows from it (all correct gives "Easy") |
| StudentGrades.GradeLetter | Student_Grade/StudentGradeCalculator.java:132-138 | A iff ≥ 90, B iff in [80, 90), C iff in [70, 80), D iff in [60, 70), F iff < 60 |
| StudentGrades.GradeLetterMonotone | Student_Grade/StudentGradeCalculator.java:132-138 | a higher score never gets a worse letter |
| StudentGrades.ReadGrade | Student_Grade/StudentGradeCalculator.java:166-180 | the value read is the first entry that parses; there is none iff no entry parses |
| StudentGrades.AddStudent | Student_Grade/StudentGradeCalculator.java:60-79 | an empty trimmed name is refused, then a grade outside [0, 100]; success appends the name and the grade together |
| StudentGrades.AddStudentKeepsValid | Student_Grade/StudentGradeCalculator.java:60-79 | the two lists keep equal length, names stay non-empty and grades stay in [0, 100] |
| StudentGrades.FindTopStudent | Student_Grade/StudentGradeCalculator.java:140-150 | the name at the first position holding the largest grade (ties go to the earliest) |
| StudentGrades.ShownScoreAsWritten | Student_Grade/StudentGradeCalculator.java:101-102 | the score printed as written: the grade of the first student bearing the top student's name |
| StudentGrades.DuplicateNameShowsWrongScore | Student_Grade/StudentGradeCalculator.java:101-102 | with names ["Ann", "Ann"] and grades [50, 90], the top student is the second, but 50 is printed |
| StudentGrades.DistinctNamesShowRightScore | Student_Grade/StudentGradeCalculator.java:101-102 | with distinct names, the printed score is the top student's own grade |
| StudentGrades.ShowTopStudent | Student_Grade/StudentGradeCalculator.java:96-104 | nothing is reported iff the list is empty; otherwise the report is the first top student with their own grade, which is at least every grade |
| Expenses.NewExpense | ExpenseTracker/Expense.java:17-25 | a non-positive amount is refused, then a null or blank category; success keeps the values, with today for a missing date and "" for a missing description |
| ExpenseTracker.ReadAmount | ExpenseTracker/ExpenseTrackerCLI.java:150-164 | the value returned is the first entry that parses to a strictly positive number; there is none iff no entry does |
| ExpenseTracker.NormalizeCategory | ExpenseTracker/ExpenseTrackerCLI.java:61-66 | the stored category is always one of the five; it is the trimmed input when that is exactly (case-sensitively) one of them, and "Other" otherwise |
| ExpenseTracker.ChooseDate | ExpenseTracker/ExpenseTrackerCLI.java:67-76 | a blank or unparsable date falls back to today; a parsed date is used as given |
| ExpenseTracker.AddExpense | ExpenseTracker/ExpenseTrackerCLI.java:59-83 | only a non-positive amount fails; otherwise exactly one expense is appended with the normalised category, the chosen date and the trimmed description |
| ExpenseTracker.AddExpenseKeepsValid | ExpenseTracker/ExpenseTrackerCLI.java:59-83 | ids stay consecutive, amounts positive and categories among the five |
| ExpenseTracker.CategoryTotal | ExpenseTracker/ExpenseTrackerCLI.java:85-93 | the running sum equals the total of exactly the expenses whose category equals the query ignoring case |
| ExpenseTracker.TotalForSign | ExpenseTracker/ExpenseTrackerCLI.java:85-93 | with positive amounts, a category total is never negative, and it is 0 iff no expense matches |
| ExpenseTracker.MonthlyExpenses | ExpenseTracker/ExpenseTrackerCLI.java:95-110 | exactly the expenses dated in that month and year, in insertion order |
| ExpenseTracker.BudgetStatus | ExpenseTracker/ExpenseTrackerCLI.java:112-126 | a query not exactly among the five names is unknown; otherwise the spent total is compared with the budget at the same index, over budget iff strictly greater |
| ExpenseTracker.EmptyTrackerWithinBudget | ExpenseTracker/ExpenseTrackerCLI.java:112-126 | with nothing spent, no known category is over budget |

## Left out

- Console I/O: the `Scanner` prompts, `System.out` output, menus, `main` loops, `printMenu` and `toString`/`printf` formatting. Each CLI operation takes its already-read lines or values as parameters.
- `readInt`: every integer prompt is a parameter. The `readDouble` loops are modelled only as acceptance over a list of parse results (`Banking.ReadAmount`, `ExpenseTracker.ReadAmount`, `StudentGrades.ReadGrade`), where None means the input ran out.
- The listing operations (`listAccounts`, `listContacts`, `listBooks`, `listTasks`, `listProducts`, `listExpenses`, `listAllStudents`, `listPasswords`, `listCategories`): they only print.
- Randomness: the word index of `selectRandomWord` and the character picks of `generatePassword` are parameters. `java.util.Random` and `SecureRandom` are not modelled.
- Quiz.PlayQuiz: both seeded categories hold at least two questions in an unmodifiable `List.of` list (QuizGame/QuizGameCLI.java:15-23), so `Collections.shuffle` at QuizGame/QuizGameCLI.java:63 throws UnsupportedOperationException. Nothing catches it, so the program as written terminates there and never scores a quiz. The member models the intended play: the questions in stored order, scored as the rest of `playQuiz` does. The elapsed-time figure is not modelled.
- Password.java: the stored password is Base64 text (RFC 4648 section 4) produced with the platform charset. The model stores the plain password. For passwords the platform charset can encode, that is what `getDecodedPassword` gives back; characters it cannot encode come back as `?`, which the model does not reproduce.
- Dates: `LocalDate.parse` and `LocalDate.now` are not modelled. A parse result (`Option<Date>`) and "today" are parameters, and a date is an abstract (year, month, day) with lexicographic order.
- Floating point: amounts, prices, balances, grades and accuracy are Dafny `real`, so IEEE rounding, NaN and infinity are not modelled. The accuracy for zero questions is None.
- `calculateAverage`/`showClassAverage`, `Product.totalValue` and `inventoryValue`: sums and averages of doubles that nothing else depends on.
- `Account.setHolderName`: no CLI path calls it.
- Unicode: letters, digits, case mapping, `equalsIgnoreCase` and `trim` are modelled on ASCII. `trim` drops every character up to U+0020, and the `\w` class of the e-mail pattern is `[A-Za-z0-9_]`.
- Contacts.EmailMatches: ContactDirectory/Contact.java:17 writes the first character class as `[\w.-]` inside a Java string literal. `\w` is not a legal escape there, so the file does not compile as written. The Contacts model takes the evidently intended `\\w`, the regex class `\w` of word characters.
- Regular expressions: the two patterns are hand-written predicates, each proved equal to a declarative description of its syntax. `java.util.regex` is not modelled.
- Integer overflow: Java `int` arithmetic, such as `quantity += qty` or the id counters, is unbounded `int` here.
- Hangman.Guess: the source stops reading input once a round ends. The model instead answers any later line with RoundOver and changes nothing.
- Hangman.ChooseBank: the retry on an unknown difficulty is returned as Retry rather than re-prompting recursively.
- Hangman.StageIndex: stated for non-negative counts only, since the wrong count is a `nat`.
- StudentGrades.FindTopStudent: requires some grade above -1. Without one, the source reads `names.get(-1)`; every stored grade is in [0, 100].
- QuizScoring.RunQuestions: the answer numbers are parameters, one per question, as `readInt` would return them.

## Findings

| source | as written | input that shows it | evidently intended | confidence | as-written member | corrected member |
|---|---|---|---|---|---|---|
| Student_Grade/StudentGradeCalculator.java:101-102 | the top score is read back as `grades.get(names.indexOf(topStudent))`, the grade of the first student with that name | names ["Ann", "Ann"], grades [50, 90]: the top student is the second "Ann", but 50 is printed | print the top student's own grade, at the index `findTopStudent` chose | not executed | StudentGrades.DuplicateNameShowsWrongScore | StudentGrades.ShowTopStudent |
