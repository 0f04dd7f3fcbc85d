# Active models, active records and the random-string encoder, in Dafny

This project models three small parts of the Academy C# repository and proves properties about them.

- **`ActiveModel`** is the observable base class for data models. Each property setter goes through `Set`:
  - `Set` compares the stored value with the new one.
  - When they differ, it raises `PropertyChanging`, assigns under the write lock, and raises `PropertyChanged`. All of this happens inside an upgradeable read lock.
  - A `ShouldNotify` switch silences both events.

  A model also keeps a registration ledger of child models and child collections:
  - Registering a child subscribes the parent's two forwarding handlers to the child's events.
  - Registering a collection registers its items. It also subscribes to the collection's change batches, which register or unregister items.
- **`ActiveRecord`** is the sibling base class. Its `Set` differs from `ActiveModel`'s in two ways:
  - `PropertyChanged` is raised only after every lock is released.
  - Every changed property name is added to a ledger that only grows.
- **The random-string nonce** writes hexadecimal words:
  - `ByteConverter` builds a 256-entry table of packed digit pairs (`CreateLookup32`) and encodes bytes with it (`ToHex`).
  - `Main` writes one million 4-byte words. After the twelfth word of each line it writes a line break; after every other word, a space.

How the model is built:

- **Lock and events.** The reader/writer lock is not modelled as a concurrent object. Each instance keeps a ghost history of steps: lock entries and exits, raised events (with the invocation list at that moment), field assignments and the disposal of the lock. The lock mode held at any point is computed from this history.
- **Invocation lists.** Each .NET event is a sequence of handlers. `+=` appends a handler. `-=` removes the handler's last occurrence, as `Delegate.Remove` does.
- **`ref` fields.** A `ref T field` parameter becomes an input plus an output holding the field's new value.
- **Hex encoder and layout.** `ToHex` and `CreateLookup32` are methods over arrays, each proved against a pure specification (`HexOf`, `IsLookup32`). The word layout is a pure function (`Layout`), and `WriteWords` is proved against it.

## Model

| member | source | states |
|---|---|---|
| Tracing.DisciplineObserved | src/Academy.Cs/Patterns/ActiveRecord/ActiveModel.cs:18-20 | A history raises no event under the write lock and assigns only under it exactly when every event a listener sees is outside the write lock and every assignment is inside it. Both directions of the if-and-only-if are proved. |
| Tracing.ObservedFromConcat | src/Academy.Cs/Patterns/ActiveRecord/ActiveModel.cs:18-20 | What two histories show when joined is what the first shows, then what the second shows when run from the lock mode the first left. |
| Tracing.ObservedAfterRelease | src/Academy.Cs/Patterns/ActiveRecord/ActiveModel.cs:18-20 | A call made once the lock is released shows the same events and assignments it would show on a fresh instance, after everything shown before. |
| Tracing.DisciplineConcat | src/Academy.Cs/Patterns/ActiveRecord/ActiveModel.cs:18-20 | Two histories that each keep the lock rule, the first ending unlocked, keep it when joined. |
| Tracing.ExtendHistory | src/Academy.Cs/Patterns/ActiveRecord/ActiveModel.cs:18-20 | A valid history extended by a disciplined call that does not dispose the lock stays valid, with the same disposal flags. |
| Tracing.DisposeHistory | src/Academy.Cs/Patterns/ActiveRecord/ActiveModel.cs:111-114 | Disposing a live lock leaves a valid history in which the lock is disposed exactly once. |
| Tracing.WriteSection | src/Academy.Cs/Patterns/ActiveRecord/ActiveModel.cs:268-276 | The write-lock section, entered from the upgradeable read lock, shows only the assignment, under the write lock. The upgradeable read lock is held again afterwards. |
| Tracing.RemoveLast | src/Academy.Cs/Patterns/ActiveRecord/ActiveModel.cs:197-198 | `-=` leaves a list without the handler unchanged, and makes a list with the handler one entry shorter. Which entry goes, and that the rest keep their order, is `Tracing.RemoveLastIsLast`. |
| Tracing.LastIndex | src/Academy.Cs/Patterns/ActiveRecord/ActiveModel.cs:197-198 | The position it gives holds the handler, and the handler does not occur after it. |
| Tracing.RemoveLastAt | src/Academy.Cs/Patterns/ActiveRecord/ActiveModel.cs:197-198 | `-=` removes exactly the entry at the handler's last position and keeps the entries before and after it in order. |
| Tracing.RemoveLastIsLast | src/Academy.Cs/Patterns/ActiveRecord/ActiveModel.cs:197-198 | For a list holding the handler, `-=` removes the occurrence after which the handler no longer appears, and keeps every entry before and after it in order. |
| Tracing.RemoveLastCount | src/Academy.Cs/Patterns/ActiveRecord/ActiveModel.cs:197-198 | `-=` removes exactly one occurrence of the handler and leaves the count of every other handler unchanged. |
| Tracing.SubscribeThenUnsubscribe | src/Academy.Cs/Patterns/ActiveRecord/ActiveModel.cs:185-198 | `-=` right after `+=` of the same handler restores the list exactly, whatever it held. |
| Tracing.Dispatch | src/Academy.Cs/Patterns/ActiveRecord/ActiveModel.cs:326-334 | A parent's forwarder reaches that parent's `OnChildPropertyChanging`/`OnChildPropertyChanged`, for the forwarder's own event, with the raising child as sender and the same name. An outside subscriber receives the raised event with the same sender and name. |
| Tracing.Calls | src/Academy.Cs/Patterns/ActiveRecord/ActiveModel.cs:225 | Raising an event makes one call per entry of the invocation list: call `i` is the dispatch of entry `i`, so every entry is invoked once, in list order. |
| Tracing.HookCallsMatchSubscriptions | src/Academy.Cs/Patterns/ActiveRecord/ActiveModel.cs:326-334 | Raising a child's event reaches the parent's `OnChildPropertyChanging`/`OnChildPropertyChanged` for that child and name exactly as many times as the parent's forwarder occurs in the list. |
| ActiveModels.ActiveModel.constructor | src/Academy.Cs/Patterns/ActiveRecord/ActiveModel.cs:35-38 | A new model has notifications on, empty ledgers, no subscribers and a live lock. |
| ActiveModels.ActiveModel.SetShouldNotify | src/Academy.Cs/Patterns/ActiveRecord/ActiveModel.cs:75-79 | The notification switch takes the given value. |
| ActiveModels.ActiveModel.AddHandler | src/Academy.Cs/Patterns/ActiveRecord/ActiveModel.cs:65-70 | `+=` appends a listener to the chosen event and leaves the other event unchanged. |
| ActiveModels.ActiveModel.RemoveHandler | src/Academy.Cs/Patterns/ActiveRecord/ActiveModel.cs:65-70 | `-=` removes the listener's last occurrence from the chosen event and leaves the other event unchanged. |
| ActiveModels.ActiveModel.Dispose | src/Academy.Cs/Patterns/ActiveRecord/ActiveModel.cs:102-120 | Afterwards the instance is disposed. Only the first call acts, and it disposes the lock exactly when `disposing` is true. A later call changes nothing. |
| ActiveModels.ActiveModel.OnPropertyChanging | src/Academy.Cs/Patterns/ActiveRecord/ActiveModel.cs:221-229 | Returns true always. Raises PropertyChanging with the current invocation list only when notifications are on. |
| ActiveModels.ActiveModel.OnPropertyChanged | src/Academy.Cs/Patterns/ActiveRecord/ActiveModel.cs:235-241 | Raises PropertyChanged with the current invocation list only when notifications are on. |
| ActiveModels.ActiveModel.Set | src/Academy.Cs/Patterns/ActiveRecord/ActiveModel.cs:259-288 | On a live lock, the field takes the value and the result is whether the value differed. The history grows by exactly the steps of `SetSteps`, and the lock rule is kept. What a listener sees of the instance's whole history grows by exactly `SetView`. On a disposed lock, the call fails and nothing changes. |
| ActiveModels.ActiveModel.Get | src/Academy.Cs/Patterns/ActiveRecord/ActiveModel.cs:296-307 | Returns the field's value under a read lock that is entered and left. No other state changes. |
| ActiveModels.ActiveModel.RegisterChild | src/Academy.Cs/Patterns/ActiveRecord/ActiveModel.cs:181-191 | Returns true exactly when the child was not registered. The child is registered afterwards. On true, the parent's two forwarders are appended to the child's events; on false, they are unchanged. The parent still forwards the child's events once exactly while it is registered. |
| ActiveModels.ActiveModel.UnregisterChild | src/Academy.Cs/Patterns/ActiveRecord/ActiveModel.cs:193-203 | Returns true exactly when the child was registered. The child is not registered afterwards. On true, the parent's two forwarders leave the child's events; on false, they are unchanged. The parent still forwards the child's events once exactly while it is registered. |
| ActiveModels.ActiveModel.RegisterEach | src/Academy.Cs/Patterns/ActiveRecord/ActiveModel.cs:153-156 | Every item joins the children. Each item that was not already a child gains the two forwarders, once even if it is listed twice. Each item stays forwarded once exactly while registered. |
| ActiveModels.ActiveModel.UnregisterEach | src/Academy.Cs/Patterns/ActiveRecord/ActiveModel.cs:170-173 | Every item leaves the children. Each item that was a child loses the two forwarders, once even if it is listed twice. Each item stays forwarded once exactly while registered. |
| ActiveModels.ActiveModel.RegisterChildCollection | src/Academy.Cs/Patterns/ActiveRecord/ActiveModel.cs:147-162 | Returns true exactly when the collection was not registered. On true, the parent subscribes to the collection's batches and registers every current item. On false, nothing changes. |
| ActiveModels.ActiveModel.UnregisterChildCollection | src/Academy.Cs/Patterns/ActiveRecord/ActiveModel.cs:164-179 | Returns true exactly when the collection was registered. On true, it undoes the subscription and unregisters every current item. On false, nothing changes. |
| ActiveModels.ActiveModel.ChildCollectionChanged | src/Academy.Cs/Patterns/ActiveRecord/ActiveModel.cs:309-324 | For a registered sender, the new children are the old ones plus the added items minus the removed items. An item in both batches ends unregistered. Each item's forwarders reflect the registration followed by the unregistration, and each item stays forwarded once exactly while registered. |
| ActiveModels.ActiveModel.RegisterThenUnregisterCollection | src/Academy.Cs/Patterns/ActiveRecord/ActiveModel.cs:147-179 | Unregistering a collection right after registering it restores the collection ledger and the collection's listeners. Items that were not children before get their invocation lists back unchanged. Items that were already registered as children on their own end up unregistered and lose one forwarder. So the round trip restores the child ledger exactly when no item was a child before. |
| ActiveModels.SetStepsKeepDiscipline | src/Academy.Cs/Patterns/ActiveRecord/ActiveModel.cs:261-285 | One `Set` ends with the lock released, raises no event under the write lock, assigns only under it, and never disposes the lock. |
| ActiveModels.NotifyObserved | src/Academy.Cs/Patterns/ActiveRecord/ActiveModel.cs:221-241 | With notifications on, raising shows exactly one event, in the lock mode held. With them off, it shows nothing and keeps the mode. |
| ActiveModels.SetObserved | src/Academy.Cs/Patterns/ActiveRecord/ActiveModel.cs:259-288 | A `Set` run from a released lock releases it again and shows `SetView`. An equal value shows nothing. A differing value shows one Changing, then the assignment under the write lock, then one Changed, all for the same name, with both events under the upgradeable read lock. With notifications off, only the assignment shows. |
| ActiveModels.SetObservedInHistory | src/Academy.Cs/Patterns/ActiveRecord/ActiveModel.cs:259-288 | On any history that keeps the lock rule, one more `Set` keeps it and adds exactly `SetView` to what a listener has seen. |
| ActiveModels.ChangeObserved | src/Academy.Cs/Patterns/ActiveRecord/ActiveModel.cs:264-280 | The part of a differing `Set` inside the upgradeable read lock shows Changing, the write, then Changed, or only the write when notifications are off. |
| ActiveModels.SubscribeForwarding | src/Academy.Cs/Patterns/ActiveRecord/ActiveModel.cs:182-185 | Subscribing the parent's forwarder to a child that carried none makes it occur exactly once. |
| ActiveModels.UnsubscribeForwarding | src/Academy.Cs/Patterns/ActiveRecord/ActiveModel.cs:195-198 | Unsubscribing the forwarder from a child that carried it once leaves none. |
| ActiveModels.ForwardingFollowsRegistration | src/Academy.Cs/Patterns/ActiveRecord/ActiveModel.cs:326-334 | While a parent forwards a child once exactly while registered, raising either event of the child reaches the parent's hook once when the child is registered and never when it is not. |
| ActiveModels.RegistrationScenario | src/Academy.Cs/Patterns/ActiveRecord/ActiveModel.cs:181-203 | A fresh parent and child: the first registration succeeds and the second is refused. While registered, PropertyChanged reaches the parent's hook once. The first unregistration succeeds and the second is refused, and afterwards the hook is reached no more. |
| ActiveRecords.ActiveRecord.constructor | src/Academy.Cs/Patterns/ActiveRecord/ActiveRecord.cs:31-33 | A new record has an empty ledger, no subscribers and a live lock. |
| ActiveRecords.ActiveRecord.AddHandler | src/Academy.Cs/Patterns/ActiveRecord/ActiveRecord.cs:47-52 | `+=` appends a listener to the chosen event and leaves the other event unchanged. |
| ActiveRecords.ActiveRecord.RemoveHandler | src/Academy.Cs/Patterns/ActiveRecord/ActiveRecord.cs:47-52 | `-=` removes the listener's last occurrence from the chosen event and leaves the other event unchanged. |
| ActiveRecords.ActiveRecord.Dispose | src/Academy.Cs/Patterns/ActiveRecord/ActiveRecord.cs:77-95 | Afterwards the instance is disposed. Only the first call acts, and it disposes the lock exactly when `disposing` is true. |
| ActiveRecords.ActiveRecord.OnPropertyChanging | src/Academy.Cs/Patterns/ActiveRecord/ActiveRecord.cs:133-137 | Returns true always, and raises PropertyChanging unconditionally. |
| ActiveRecords.ActiveRecord.OnPropertyChanged | src/Academy.Cs/Patterns/ActiveRecord/ActiveRecord.cs:143-147 | Adds the name to the ledger, then raises PropertyChanged. |
| ActiveRecords.ActiveRecord.Set | src/Academy.Cs/Patterns/ActiveRecord/ActiveRecord.cs:165-198 | On a live lock, the field takes the value and the result is whether the value differed. The ledger gains the name exactly when the value differed and never loses one. The history grows by `RecordSetSteps`, keeping the lock rule. What a listener sees of the instance's whole history grows by exactly `RecordSetView`. On a disposed lock, the call fails and nothing changes. |
| ActiveRecords.ActiveRecord.Get | src/Academy.Cs/Patterns/ActiveRecord/ActiveRecord.cs:206-217 | Returns the field's value under a read lock that is entered and left. No other state changes. |
| ActiveRecords.RecordSetStepsKeepDiscipline | src/Academy.Cs/Patterns/ActiveRecord/ActiveRecord.cs:167-190 | One record `Set` ends with the lock released, raises no event under the write lock, assigns only under it, and never disposes the lock. |
| ActiveRecords.UnderUpgradeableLock | src/Academy.Cs/Patterns/ActiveRecord/ActiveRecord.cs:168-184 | Inside the upgradeable read lock, a differing record `Set` shows Changing under that lock, then the assignment under the write lock. |
| ActiveRecords.RecordSetObserved | src/Academy.Cs/Patterns/ActiveRecord/ActiveRecord.cs:165-198 | A record `Set` run from a released lock releases it again and shows `RecordSetView`. An equal value shows nothing. A differing value shows one Changing under the upgradeable read lock, the assignment under the write lock, then one Changed for the same name with no lock held. |
| ActiveRecords.RecordSetObservedInHistory | src/Academy.Cs/Patterns/ActiveRecord/ActiveRecord.cs:165-198 | On any history that keeps the lock rule, one more record `Set` keeps it and adds exactly `RecordSetView` to what a listener has seen. |
| ByteConverter.HexDigit | src/Academy.Cs/Nonces/N20200330RandomString.cs:72 | Every digit the `"x2"` format writes is in `0-9` or `a-f`. |
| ByteConverter.DigitValue | src/Academy.Cs/Nonces/N20200330RandomString.cs:72 | Reading a digit gives the value under 16 whose digit it is. |
| ByteConverter.FormatX2Padded | src/Academy.Cs/Nonces/N20200330RandomString.cs:72 | `"x2"` writes two digits. The first is `0` exactly for values below 16, and the second is the low-nibble digit. |
| ByteConverter.LookupEntryHalves | src/Academy.Cs/Nonces/N20200330RandomString.cs:72-73 | Entry `i` holds the first digit of `i` in its low 16 bits and the second digit in its high 16 bits, with the unsigned 32-bit arithmetic written out. |
| ByteConverter.CreateLookup32 | src/Academy.Cs/Nonces/N20200330RandomString.cs:67-77 | Returns a fresh 256-entry table whose entry `i` is the packed `"x2"` text of `i`. |
| ByteConverter.HexOf | src/Academy.Cs/Nonces/N20200330RandomString.cs:56 | The text of `n` bytes has `2n` characters, every one a lowercase hexadecimal digit. |
| ByteConverter.HexOfAt | src/Academy.Cs/Nonces/N20200330RandomString.cs:57-62 | Character `2i` is the high-nibble digit of byte `i`, and character `2i+1` is its low-nibble digit. |
| ByteConverter.HexOfConcat | src/Academy.Cs/Nonces/N20200330RandomString.cs:57-62 | The text of a concatenation is the concatenation of the texts. |
| ByteConverter.DigitsRoundTrip | src/Academy.Cs/Nonces/N20200330RandomString.cs:72 | A byte is read back from its two digits. |
| ByteConverter.FromHexSnoc | src/Academy.Cs/Nonces/N20200330RandomString.cs:60-61 | Decoding text that ends with the two digits of a byte ends with that byte. |
| ByteConverter.HexOfRoundTrip | src/Academy.Cs/Nonces/N20200330RandomString.cs:53-65 | The encoding loses nothing: decoding the text of any bytes gives back those bytes. |
| ByteConverter.ToHex | src/Academy.Cs/Nonces/N20200330RandomString.cs:53-65 | Given the lookup table, the char array filled index by index holds exactly `HexOf(bytes)`, so the empty input gives the empty string. |
| WordLayout.Separator | src/Academy.Cs/Nonces/N20200330RandomString.cs:33-40 | What follows a word is a line break or a single space. |
| WordLayout.WordsPerLineValue | src/Academy.Cs/Nonces/N20200330RandomString.cs:21 | `WordsPerLine` is 100 / (4 * 2) = 12, and a full line of 8-digit words is 12 * 8 + 11 = 107 characters long. |
| WordLayout.SeparatorRule | src/Academy.Cs/Nonces/N20200330RandomString.cs:33-40 | Word `i` is followed by a line break exactly when `i % 12 == 11`, and by one space otherwise. |
| WordLayout.WithinLineSeparator | src/Academy.Cs/Nonces/N20200330RandomString.cs:33-40 | Every word but the last of a line is followed by a space. |
| WordLayout.SeparatorPeriodic | src/Academy.Cs/Nonces/N20200330RandomString.cs:33 | The separator rule repeats every twelve words. |
| WordLayout.LayoutAfterWholeLines | src/Academy.Cs/Nonces/N20200330RandomString.cs:33-40 | After a whole number of lines, the layout of the remaining words starts afresh. |
| WordLayout.LayoutWithinLine | src/Academy.Cs/Nonces/N20200330RandomString.cs:33-40 | Within one line, the words are joined by single spaces, and only the last separator can be a line break. |
| WordLayout.LayoutIsLines | src/Academy.Cs/Nonces/N20200330RandomString.cs:33-40 | The written text is exactly a run of complete lines of twelve space-separated words, each ending with a line break. Any leftover words form an unfinished last line that ends with a space. |
| WordLayout.JoinSpacesLength | src/Academy.Cs/Nonces/N20200330RandomString.cs:39 | `n` words of length `len` joined by spaces take `n * len + n - 1` characters. |
| WordLayout.FullLineLength | src/Academy.Cs/Nonces/N20200330RandomString.cs:20-21 | A complete line of 8-digit words is 107 characters before its line break, more than `MaxLineLength`. |
| WordLayout.SeparatorBreaks | src/Academy.Cs/Nonces/N20200330RandomString.cs:33-40 | A separator holds one line break when it ends a line, and none otherwise. |
| WordLayout.LinesCompleted | src/Academy.Cs/Nonces/N20200330RandomString.cs:33 | One more word completes one more line exactly when its index is `11` modulo `12`. |
| WordLayout.LineBreakStep | src/Academy.Cs/Nonces/N20200330RandomString.cs:33-40 | Writing one more word and its separator adds a line break exactly when the word completes a line. |
| WordLayout.LineBreakCount | src/Academy.Cs/Nonces/N20200330RandomString.cs:33-40 | The text for `n` single-line words holds `n / 12` line breaks, one per complete line. |
| WordLayout.Words | src/Academy.Cs/Nonces/N20200330RandomString.cs:31-32 | Word `i` is the hexadecimal text of draw `i`, and no word contains a line break. |
| WordLayout.WriteWords | src/Academy.Cs/Nonces/N20200330RandomString.cs:29-41 | The loop that encodes each draw and writes it with its separator produces exactly `Layout(Words(draws))`. |
| WordLayout.FullRun | src/Academy.Cs/Nonces/N20200330RandomString.cs:18-41 | A run of one million words holds 83333 line breaks and ends with a space. |
| WordLayout.TrailingLine | src/Academy.Cs/Nonces/N20200330RandomString.cs:33-40 | When the words run past the last complete line, the text is the complete lines, then the remaining words joined by spaces, then a space. |
| WordLayout.FullRunLines | src/Academy.Cs/Nonces/N20200330RandomString.cs:18-41 | The text of one million words is 83333 complete lines of twelve words, then an unfinished line of the four remaining words joined by spaces and ending with a space. |

## Left out

- **Threading.** `ReaderWriterLockSlim` blocking, recursion policy and interleavings of several threads are not modelled. The lock is the mode held by the single running call, recorded in a ghost history.
- **Unsynchronised ledgers.** The child registration sets and the record's changed-name set are updated without the lock. The races this allows are outside a sequential model.
- **Disposed lock.** Once `Dispose(true)` has disposed the lock, `Set` and `Get` end with `LockDisposedError`. This stands for the `ObjectDisposedException` that `ReaderWriterLockSlim` throws on entry.
- **Shared ledgers.** A child registered on its own and also contained in a registered collection is a single entry in the child ledger. Unregistering the collection, or a batch that removes it, therefore unregisters it as well. The model follows the code here (`ActiveModels.ActiveModel.RegisterThenUnregisterCollection` states it), not the reading that the two ledgers are independent.
- **Use after disposal.** Both classes still allow field access after `Dispose(false)`, and registration after any disposal, because the code checks no disposed flag there. The model follows the code rather than treating a disposed instance as unusable.
- **Stubs.** `IsValid`, `Validate`, `Reload`, `Save`, `IDataStore` and `IDataStorable` only throw `NotImplementedException` or are placeholders.
- **Finalisation.** The finalisers, the parameterless `Dispose()` and `GC.SuppressFinalize` are left out. Only `Dispose(bool)`'s flag logic is modelled.
- **Value equality.** `EqualityComparer<T>.Default` is Dafny's built-in equality on an equality-supporting type. A user-defined `Equals` is not modelled.
- **`[CallerMemberName]` and event arguments.** The property name is passed explicitly, and event-argument objects are not modelled.
- **Null references.** The model's parameters cannot be null, so a null argument, which the design treats as a caller error, is not modelled. In the source the ledgers are hash sets that accept null. The first time, `RegisterChild(null)` adds null to the child ledger and then throws `NullReferenceException` at the `+=`. After that, null is already a child, so the call returns false. `UnregisterChild(null)` returns false when null is not a child. When null is a child, it removes null and then throws at the `-=`. `RegisterChildCollection(null)` and `UnregisterChildCollection(null)` behave the same way with the collection ledger. A null item stops a register loop (`RegisterChildCollection`, or the `NewItems` loop of `ChildCollectionChanged`) only when null is not yet a child. The earlier items are then registered, the later ones are not, and a stopped `NewItems` loop skips the `OldItems` loop. A null item stops an unregister loop (`UnregisterChildCollection`, or the `OldItems` loop) only when null is a child. The earlier items are then unregistered and the later ones stay registered. Otherwise the null item's call returns false and the loop goes on.
- **Batch arguments.** A collection-changed notification carries its added and removed items as sequences, possibly empty. The code would throw on a `null` `NewItems` or `OldItems`, which `NotifyCollectionChangedEventArgs` supplies for pure removals or pure additions. That exception is not modelled.
- **The collection itself.** `ObservableCollection<T>`'s own `Add`/`Remove` and its raising of `CollectionChanged` are not modelled. The collection is a sequence of items plus the list of parents listening to it.
- **Throwing subscribers.** Every subscriber is taken to return normally. A PropertyChanging listener that throws would stop `Set` before the assignment, leaving the field unchanged, and the exception would propagate once the locks are released. This is not modelled.
- **Handler bodies.** `OnChildPropertyChanging` and `OnChildPropertyChanged` have empty bodies in the base class. A call reaching them is recorded, and what overriding handlers do, including re-entering the instance, is not modelled.
- **Runtime checks.** The `Debug.Assert` checks in `ChildCollectionChanged` become its precondition that the sender is a registered collection. The same checks also ask for a non-null `ICollection` sender, which the types already guarantee.
- **Random draws and file output.** `Random.NextBytes` is a parameter: the sequence of 4-byte draws. The `StreamWriter` is the text it would receive, with `WriteLine`'s line terminator written as `"\n"`. The `File.Exists` assertion, file creation and the output path are left out.
- ByteConverter.ToHex: promises `HexOf(bytes)` for inputs of every length. For inputs of about 2^29 bytes or more, the source's `char` array of twice the length (32-bit `int` size) and the resulting string exceed .NET's limits, and it throws `OutOfMemoryException`. From 2^30 bytes the size wraps negative and it throws `OverflowException`. Neither exception is modelled.
- **WordLayout.WriteWords** takes the number of words from its draws instead of the fixed `WordCount`. `WordLayout.FullRun` covers the count of one million.
- **src/Academy.Cs/Nonces/N20190901GoogleFit.cs** is not part of this model: it does directory and file I/O, regular expressions, date parsing and floating-point unit conversion.
