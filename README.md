# Three tkinter games and tools, modelled in Dafny

This project models the sequential logic of three small Python programs.
The window, canvas and widgets are left out.

- **Alien shooter** (`aliens2.py`, module `Aliens`). A `ShooterGame` holds the
  player's position and three lists: `bullets`, `aliens` and `explosions`.
  - The arrow keys shift the player. Space shoots a bullet. A timer spawns an
    alien at a random column.
  - Every `animate` tick does four things in order:
    1. It moves each bullet up by 15 and drops the bullets whose first point is above the window.
    2. It moves each alien down by 2 and drops the aliens whose bottom edge is below the window.
    3. It resolves hits. Each bullet, in list order, is compared with the aliens still alive.
    4. It deletes every flash.
  - In step 3, the first alien whose box strictly contains the bullet's first
    point is destroyed together with the bullet, and an orange flash appears
    at its centre. The deleted bullet has no coordinates, so it cannot hit a
    second alien.
  - Canvas items become coordinate values kept in the lists in creation order.
  - `random.randint` becomes a parameter. Each timer firing becomes one method call.
- **Grid mover** (`babySnake.py`, module `Snake`). A player square moves one
  20-unit cell per tick in the direction the last arrow key chose.
  - Leaving the 400×400 canvas prints "Game over!" and calls `root.quit()`.
    The model records this as a flag. The current tick still runs to its end.
  - Overlapping the goal square moves the goal to a random place, which is a parameter.
  - The state is a `SnakeState` value with `Press` and `Tick` functions. The
    `Game` class updates the same fields in place, and its methods are proved
    equal to those functions.
- **Address book** (`contacts.py`, module `Contacts`). A `ContactBook` holds
  the module-level `contacts` list of records `"name | address | phone"`.
  - Add and Update strip the entries, reject an empty name or phone, and
    store the formatted record. Clear All empties the list. Load replaces it
    by one record per CSV row.
  - Save writes every record split on `" | "`. Selecting a row splits the
    record into the three entries.
  - Search lists the records whose lower-cased form contains the stripped,
    lower-cased query.
  - Python's `str.strip`, `str.lower`, `in` on strings and `str.split` are
    modelled as functions on `seq<char>`.

`aliens2.py` removes an item from its list as soon as it leaves the screen or is
hit, and does not clamp the player to the window.

The main results:
- Splitting a formatted record on `" | "` gives back its three fields when no
  field contains `|` (`SplitFormat`). Loading a file and saving it again writes
  the same rows (`LoadThenSave`).
- Search returns exactly the matching records, in order (`SearchContacts`, `FilterMembers`).
- A tick of the shooter leaves no bullet above the window, no alien below it,
  no bullet inside an alien and no flash (`Animate`, `TickLeavesNoPendingHit`).
- Every hit removes one bullet and one alien and shows one flash
  (`ResolveHits`, `ResolveHitsFlashes`).
- The grid mover's coordinates stay multiples of 20 and its goal stays inside
  the canvas under any sequence of key presses and ticks (`RunOnGrid`).

## Model

| member | source | states |
|---|---|---|
| Contacts.StripSpec | contacts.py:8-10 | everything `strip()` removes on either side is Python whitespace, and the text left neither starts nor ends with whitespace |
| Contacts.StripIdempotent | contacts.py:8-10 | stripping an already stripped entry changes nothing |
| Contacts.Strip | contacts.py:8-10 | `strip()`: the entry with its leading and trailing whitespace runs cut off (properties in StripSpec and StripIdempotent) |
| Contacts.Lower | contacts.py:55 | `lower()` keeps the length and maps each character through the letter case mapping |
| Contacts.Contains | contacts.py:58 | `query in text`: the query occurs in the text at some position |
| Contacts.Format | contacts.py:14 | the record `f"{name} \| {address} \| {phone}"`: the three fields joined by the separator `" \| "` (also built at lines 49 and 85) |
| Contacts.Find | contacts.py:38 | the separator occurs at the returned position and nowhere before it; None means it does not occur at all |
| Contacts.Split | contacts.py:38 | `split(" \| ")` yields at least one piece, joining the pieces with the separator gives the record back, and no piece contains the separator |
| Contacts.SplitFormat | contacts.py:14 | splitting `f"{name} \| {address} \| {phone}"` on `" \| "` gives exactly [name, address, phone] when no field contains `\|` |
| Contacts.SplitFormatHasThreePieces | contacts.py:66-72 | whatever the fields hold, a formatted record splits into at least three pieces, so on_select's reads of pieces 0, 1 and 2 succeed |
| Contacts.BuildRecord | contacts.py:8-14 | the record is refused exactly when the stripped name or the stripped phone is empty |
| Contacts.BuildRecordSplits | contacts.py:8-14 | an accepted record splits back into the stripped name, address and phone when the entries hold no `\|` |
| Contacts.Matches | contacts.py:58 | a record matches when its lower-cased form contains the query |
| Contacts.Filter | contacts.py:57-59 | the records that match the query, kept in list order |
| Contacts.FilterAppend | contacts.py:57-59 | the search filter distributes over concatenation, so matches keep their list order |
| Contacts.FilterMembers | contacts.py:57-59 | a record is in the search result exactly when it is in the list and its lower-cased form contains the query |
| Contacts.FilterShorter | contacts.py:57-59 | the search result is never longer than the list |
| Contacts.EmptyQueryMatchesAll | contacts.py:55-58 | an empty or all-blank search entry lists every record, in order |
| Contacts.FormatRows | contacts.py:48-50 | the records load builds from the CSV rows: one formatted record per row, in row order |
| Contacts.FormatRowsAt | contacts.py:48-50 | loading yields one record per CSV row, and record k is row k formatted |
| Contacts.SplitRecords | contacts.py:37-38 | the CSV rows save writes after the header: each record split on `" \| "`, in list order |
| Contacts.LoadThenSave | contacts.py:36-38 | saving the records loaded from some rows writes exactly those rows' Name, Address and Phone columns, in order, when no field contains `\|` |
| Contacts.SelectFields | contacts.py:66-72 | the first three pieces of the record split on `" \| "`, or None (the IndexError) when it has fewer than three |
| Contacts.SelectFormatted | contacts.py:65-72 | selecting a formatted record never raises IndexError and fills in the original fields when they hold no `\|` |
| Contacts.ContactBook.constructor | contacts.py:5 | the list starts empty, so every record splits into at least three pieces |
| Contacts.ContactBook.AddContact | contacts.py:7-15 | a record is added exactly when the stripped name and phone are non-empty. Then exactly the formatted stripped fields are appended at the end; otherwise the list is unchanged; every record still splits into at least three pieces |
| Contacts.ContactBook.UpdateContact | contacts.py:74-86 | with a selection and valid fields, only the selected record is replaced by the new formatted record; with no selection or an empty name or phone nothing changes; every record still splits into at least three pieces |
| Contacts.ContactBook.ClearContacts | contacts.py:25-27 | a confirmed Clear All empties the list; a refused one changes nothing; every record still splits into at least three pieces |
| Contacts.ContactBook.LoadContacts | contacts.py:41-50 | a chosen file replaces the list by one formatted record per row, in row order; a cancelled dialog changes nothing; every record still splits into at least three pieces |
| Contacts.ContactBook.SaveContacts | contacts.py:31-38 | a chosen file receives the header row and then every record split on `" \| "`, in list order; the list is not changed |
| Contacts.ContactBook.SearchContacts | contacts.py:54-59 | the result is, in list order, exactly the records whose lower-cased form contains the stripped, lower-cased entry; the list is not changed |
| Contacts.ContactBook.OnSelect | contacts.py:62-72 | with no selection nothing is filled in; otherwise the three entries receive the record's first three pieces, IndexError is raised exactly when there are fewer than three, and it is never raised on a book whose records add, update and load built |
| Aliens.Intersects | aliens2.py:92-101 | the test is false when either item has been deleted (its coordinates are empty) |
| Aliens.HitIsStrictInterior | aliens2.py:99-101 | a live bullet hits a 40×40 alien exactly when its first point is strictly inside the box; a point on the edge is no hit |
| Aliens.MoveAndCull | aliens2.py:57-68 | one pass of a move-then-delete loop over a copy of the list: every item is stepped and the stepped items that are kept stay, in order; the result is never longer and holds only kept items |
| Aliens.MoveAndCullMembers | aliens2.py:57-68 | an item survives the move-and-delete pass exactly when it is the moved form of an old item and is kept |
| Aliens.MoveAndCullAppend | aliens2.py:57-68 | the pass works item by item, so the survivors keep their relative order |
| Aliens.AdvanceBullet | aliens2.py:58 | a bullet moved by BULLET_SPEED (15 up) at both endpoints |
| Aliens.BulletOnScreen | aliens2.py:59 | a bullet is kept while its first point is at y ≥ 0 |
| Aliens.AdvanceAlien | aliens2.py:65 | an alien moved by ALIEN_SPEED (2 down) |
| Aliens.AlienOnScreen | aliens2.py:66 | an alien is kept while its bottom edge is at y ≤ 400 |
| Aliens.BulletPass | aliens2.py:57-61 | a bullet survives the tick exactly when it is an old bullet moved up by 15 whose first point is at y ≥ 0 |
| Aliens.AlienPass | aliens2.py:64-68 | an alien survives the tick exactly when it is an old alien moved down by 2 whose bottom edge is at y ≤ 400 |
| Aliens.FirstHit | aliens2.py:72-73 | the alien found is in the list and is hit by the bullet |
| Aliens.FirstHitIsFirst | aliens2.py:72-73 | no alien before the one found is hit, and when none is found no alien in the list is hit |
| Aliens.FirstHitAt | aliens2.py:72-73 | an alien that is hit, with no hit before it, is the one the scan finds |
| Aliens.Explosion | aliens2.py:75-77 | the flash shown for an alien: the 20×20 box show_explosion (line 104) draws around the centre of the alien's box |
| Aliens.ExplosionCentred | aliens2.py:75-77 | the flash of a 40×40 alien is a 20×20 box centred exactly on the alien's centre |
| Aliens.ResolveHits | aliens2.py:71-83 | every flash accounts for exactly one removed bullet and exactly one removed alien |
| Aliens.ResolveHitsKeepsBullets | aliens2.py:79 | the bullets left are a sub-multiset of the bullets before the collision pass |
| Aliens.ResolveHitsKeepsAliens | aliens2.py:80 | the aliens left are a sub-multiset of the aliens before the collision pass |
| Aliens.ResolveHitsComplete | aliens2.py:71-83 | after the collision pass no surviving bullet is inside a surviving alien |
| Aliens.ResolveHitsFlashes | aliens2.py:75-83 | every flash shown is centred on an alien that was alive when the pass began |
| Aliens.ResolveMiss | aliens2.py:71-83 | a bullet inside none of the aliens survives at the head of the surviving bullets, removes no alien and shows no flash |
| Aliens.ResolveHit | aliens2.py:71-83 | a bullet whose earliest hit is the alien at position j does not survive; exactly that alien is removed and its flash is the first one shown |
| Aliens.ShooterGame.constructor | aliens2.py:23-27 | the player starts at (300, 360) with no bullets, aliens or flashes |
| Aliens.ShooterGame.MoveLeft | aliens2.py:38-39 | the player's x decreases by exactly 10, with no clamping |
| Aliens.ShooterGame.MoveRight | aliens2.py:41-42 | the player's x increases by exactly 10, with no clamping |
| Aliens.ShooterGame.Shoot | aliens2.py:44-47 | exactly one bullet from (x, y-20) to (x, y-30) at the player's position is appended; the existing bullets are unchanged |
| Aliens.ShooterGame.SpawnAlien | aliens2.py:49-52 | exactly one 40×40 alien from y=0 to y=40, centred on the drawn x in [30, 570], is appended at the end |
| Aliens.ShooterGame.ShowExplosion | aliens2.py:103-105 | exactly one 20×20 flash centred on (x, y) is appended |
| Aliens.ShooterGame.MoveBullets | aliens2.py:57-61 | the bullets become the result of the bullet pass on the old bullets |
| Aliens.ShooterGame.MoveAliens | aliens2.py:64-68 | the aliens become the result of the alien pass on the old aliens |
| Aliens.ShooterGame.CheckBullet | aliens2.py:72-83 | one bullet's round removes the bullet and the first alien it hits and adds that alien's flash, or changes nothing when it hits none |
| Aliens.ShooterGame.CheckCollisions | aliens2.py:71-83 | the nested loops leave exactly the bullets, aliens and flashes of the collision pass on the old lists |
| Aliens.ShooterGame.Animate | aliens2.py:55-88 | a tick leaves the bullets and aliens of the move passes followed by the collision pass, returns the flashes shown, and ends with no flash left and every item in its created shape |
| Aliens.TickLeavesNoPendingHit | aliens2.py:55-83 | after any tick no bullet is above the window, no alien is below it, and no bullet is inside an alien |
| Snake.Overlap | babySnake.py:43-45 | the two 20×20 squares with the given top-left corners overlap: strict comparisons on both axes |
| Snake.OverlapMeaning | babySnake.py:43-45 | detect_collision holds exactly when the corners are less than 20 apart on both axes; it is symmetric, and squares that only touch do not collide |
| Snake.GoalFits | babySnake.py:47-48 | a drawn goal lies with its whole square inside the canvas |
| Snake.Initial | babySnake.py:27-33 | the state `__init__` builds: player at (0, 0), the drawn goal, direction (20, 0), not quitting |
| Snake.InitialOnGrid | babySnake.py:27-33 | the game starts with the player at (0, 0) heading right (20, 0), on the grid |
| Snake.Press | babySnake.py:50-54 | a key press: an arrow key takes its direction from the table, Return asks to quit, any other key leaves the state as it was |
| Snake.PressEffect | babySnake.py:50-54 | an arrow key sets the direction to its table vector and changes nothing else; Return asks to quit; any other key changes nothing |
| Snake.DirectionsAreCellSteps | babySnake.py:19-24 | every table vector moves exactly one 20-unit cell along one axis |
| Snake.Tick | babySnake.py:56-69 | a tick: the player steps by the direction, leaving the canvas asks to quit without ending the tick, and an overlap with the goal moves the goal to the drawn place |
| Snake.TickEffect | babySnake.py:56-69 | a tick moves the player by exactly the direction, flags game over exactly when the new corner leaves 0 ≤ x, y < 400, and moves the goal to the drawn place exactly when the new player square overlaps it |
| Snake.GoalMovesOnlyOnCollision | babySnake.py:66-69 | the goal moves only on a tick whose new player square overlaps it |
| Snake.TickOnGrid | babySnake.py:56-69 | a tick keeps the player on multiples of 20, the direction in the table and the goal in range |
| Snake.PressOnGrid | babySnake.py:50-54 | a key press keeps the state on the grid |
| Snake.RunOnGrid | babySnake.py:57-58 | after any sequence of key presses and ticks the player's coordinates are multiples of 20 and the goal lies in [0, 380] on both axes |
| Snake.Game.constructor | babySnake.py:27-33 | the fields are the initial state and are on the grid |
| Snake.Game.DetectCollision | babySnake.py:43-45 | the overlap test on the player's and the goal's current fields |
| Snake.Game.HandleKeypress | babySnake.py:50-54 | the fields change exactly as a key press of that key does |
| Snake.Game.UpdateGame | babySnake.py:56-69 | the fields change exactly as one tick does, game over is reported exactly when the player left the canvas, and the grid invariant is kept |

## Left out

- Widgets, layout, canvas drawing and deletion, the listbox's copy of the records, the status label and clear_fields are user interface code and are not modelled.
- The listbox can show a filtered list after a search while on_select and update_contact index `contacts`. `UpdateContact` and `OnSelect` take an index into `contacts` and require it to be in range.
- Contacts.ContactBook.OnSelect: on a record with fewer than three pieces, on_select fills the name entry (and, with two pieces, the address entry) and clears the next one before it raises IndexError; the model returns no fields there. No record that add, update or load builds reaches this path (`Valid`).
- Loading the player image with PIL is file input and is not modelled.
- `root.after`, `mainloop` and the initial calls at the end of the two constructors are left to the caller. These are `animate` (aliens2.py:36) and `update_game` (babySnake.py:38). Each timer firing is one method call.
- `random.randint` is replaced by a parameter that the caller draws from the same range.
- File dialogs and CSV files are not modelled. `LoadContacts` receives the rows, or None for a cancelled dialog. `SaveContacts` returns the rows it would write, or None. CSV quoting is not modelled.
- Message boxes are not modelled. `ClearContacts` receives the answer to the confirmation. The "Input Error" and "Select a contact" notices become a false result.
- `print("Game over!")` and `root.quit()` become the `gameOver` result and the `quitting` field.
- Contacts.Lower: maps only the letters A-Z, not the full Unicode case mapping of `str.lower()`.
- Canvas coordinates are floats in Python. The model uses integers. Every move is by an integer, and the alien centre divides an even sum, so nothing is lost for the items the game creates (`ExplosionCentred`).
- Canvas item ids become positions in the lists. `list.remove(item)` becomes removal at the item's position, since ids are unique.
- Aliens.Intersects: its own contract states only the deleted-item case. The strict-interior test for live items is stated by `Aliens.HitIsStrictInterior`.
- Aliens.ResolveHits: its own contract states only the counts. Which items remain and where the flashes are is stated by `ResolveHitsKeepsBullets`, `ResolveHitsKeepsAliens`, `ResolveHitsComplete` and `ResolveHitsFlashes`.
- Aliens.ShooterGame.MoveBullets: the loop edits a local copy of the list and stores it in the field once, at the end. The source edits the field inside the loop. Nothing else runs in between, so the final state is the same.
- Aliens.ShooterGame.MoveAliens: the same as for `MoveBullets`.
