# after_commit_changes — a Dafny model of the transaction change rollup

The `after_commit_changes` gem changes what ActiveRecord's "saved changes"
report inside commit callbacks. Without it, a transaction that saves a
record several times reports only the last save's changes. With it, the
callbacks see one net change-set for the whole transaction.

Each save appends its own change-set to a per-record log. Just before
commit, a log of more than one change-set is rolled up:

- the fold starts from the attributes captured when the transaction began;
- every entry after the first is folded in, in log order;
- each change re-assigns its attribute's value and keeps the original value;
- the resulting mutation tracker replaces the one that `saved_changes` reads.

The captured attributes are held by reference, not copied. The baseline therefore holds the attribute set as the transaction's first save leaves it, just before that save's changes are applied. It includes the save's assignments and anything the save itself writes, such as a new id. The model takes the baseline to be that set.

The repository shows this rollup in two versions, and both are modelled:

- `lib/after_commit_changes.rb` (module `AfterCommitChanges`) is the included-module version. Its log is `nil` until the first save. With at most one entry, `before_commit` returns early and leaves the log alone. Otherwise every folded attribute ends up reported as changed (forced when its value alone does not show it) and the log is dropped.
- `lib/after_commit_changes/dirty.rb` (module `Dirty`) is the prepended version. `before_save` captures the baseline once per transaction (`||=`). Its fold does not force anything. `before_commit` always clears the log and the baseline.

Files:

- `attributes.dfy` (`Attributes`): the ActiveModel pieces the rollup uses. An attribute is an original value plus a current value. A change is a `(name, before, after)` triple, and a change-set is a sequence of changes. The mutation tracker holds the attributes plus a set of forced names. `SavedChanges` is the tracker's `changes` view. An attribute counts as changed when it is forced or when its value differs from its original.
- `change_log.dfy` (`ChangeLog`): reference definitions that do not follow the loops. `Touches` says whether a change-set names an attribute. `LastAfter` gives the value of the last change to name it. `NetValue` is that value, or the baseline value when no change names the attribute. `Flatten` gives the log's changes in fold order. `Later` is Ruby's `log[1, log.length]`; Ruby gives nil for an empty log where `Later` gives `[]`, a case no rollup reaches.
- `fold.dfy` (`Fold`): the value part of the fold, which both versions share.
- `after_commit_changes.dfy`, `dirty.dfy`: the hooks, the two rollups, their net change-sets and the lemmas about them.
- `scenarios.dfy` (`Scenarios`): the expected outputs of the gem's spec file, replayed through the hooks.

Two behaviours of the code shape the model:

- In the included version, `before_commit` with at most one logged save returns early and keeps the log (lib/after_commit_changes.rb:20). The entry stays behind and becomes entry 0 of the next transaction's log, which the rollup skips. A leftover therefore decides whether the transaction's own first save is folded (pushed to position 1) or skipped (at position 0). When that first save only assigns values that the baseline shows as changed, folding it and skipping it give the same report (`ReflectedEntryIsRedundant`), so the leftover changes nothing. A leftover changes the report only through a first save that forces an attribute. A save that only forces an attribute (`name_will_change!` with the value kept) is different, because the baseline shows that attribute as unchanged. If such a save is the transaction's first, the attribute is reported only when a leftover entry pushes that save to position 1. With no leftover it is dropped. `Scenarios.ForcedFirstSaveLostOnFreshLog` and `Scenarios.ForcedFirstSaveKeptBehindStaleEntry` show both outcomes.
- Every name folded after entry 0 must be an attribute of the baseline. This is a `requires` of both rollups. Names outside the baseline are not modelled.

## Model

| member | source | states |
|---|---|---|
| AfterCommitChanges.AfterSave | lib/after_commit_changes.rb:11-14 | the log exists afterwards, is one longer, keeps every earlier entry unchanged and ends with exactly this save's change-set; attributes and tracker are untouched |
| AfterCommitChanges.AfterSaves | lib/after_commit_changes.rb:11-14 | a run of saves leaves the log as the old entries followed by the saves' change-sets in save order |
| AfterCommitChanges.FoldChange | lib/after_commit_changes.rb:26-31 | after one change the attribute holds the change's `after` with its original kept, and it is reported as changed; no other attribute's forced flag moves |
| AfterCommitChanges.ApplyTracked | lib/after_commit_changes.rb:26-32 | folding one change-set gives the same values as the plain fold, and an attribute is changed afterwards exactly when it was changed before or the change-set names it |
| AfterCommitChanges.FoldTracked | lib/after_commit_changes.rb:25-33 | folding the entries gives the plain fold's values, and an attribute is changed exactly when it was changed before or some folded change names it |
| AfterCommitChanges.Rollup | lib/after_commit_changes.rb:22-36 | the rolled-up tracker covers exactly the baseline's attributes, and its `changes` equal the net change-set of the entries after the first |
| AfterCommitChanges.BeforeCommit | lib/after_commit_changes.rb:7-37 | with at most one logged save the record is unchanged: same tracker, same log. Otherwise the log is dropped, live attributes are kept, and `saved_changes` reports the net change-set |
| AfterCommitChanges.RollupIgnoresFirstEntry | lib/after_commit_changes.rb:25 | two logs that differ only in entry 0 roll up to the same tracker |
| AfterCommitChanges.NetChangesMeaning | lib/after_commit_changes.rb:22-32 | an attribute is in the net set iff it was changed in the baseline or a later entry names it, even with its value restored. `before` is the baseline original. `after` is the last change's value in log order, or the baseline value |
| AfterCommitChanges.TrailingNoOpSave | lib/after_commit_changes.rb:25-32 | appending an empty change-set to the log leaves the net change-set unchanged |
| AfterCommitChanges.ReflectedEntryIsRedundant | lib/after_commit_changes.rb:20-25 | a change-set already shown in the baseline can be folded or skipped with the same net result. "Shown" means each named attribute holds that change's value and is changed there. So a transaction's first save of that kind is reported the same whether it sits at position 0 (skipped) or behind a leftover (folded). Forced-only changes do not meet the condition |
| AfterCommitChanges.NextTransactionStartsClean | lib/after_commit_changes.rb:12-35 | after a rollup, the next transaction's log holds exactly its own saves |
| Fold.ApplyValues | lib/after_commit_changes.rb:26-30 | folding a change-set keeps the attribute names and originals, and each value becomes the last `after` assigned to it, or stays as it was |
| Fold.FoldValues | lib/after_commit_changes/dirty.rb:36-41 | folding a log of change-sets keeps names and originals, and each value becomes the last `after` assigned across the whole log in order |
| ChangeLog.LastAfter | lib/after_commit_changes.rb:25-30 | the result is None iff no change names the attribute. Otherwise it is the `after` of a change naming it that no later change names |
| ChangeLog.LastAfterConcat | lib/after_commit_changes.rb:25-30 | over two consecutive runs of changes, the later run's last assignment wins; the earlier run matters only for names the later run leaves alone |
| ChangeLog.FlattenTouches | lib/after_commit_changes.rb:25-26 | the nested loops visit a change to an attribute iff some entry names that attribute |
| Dirty.Initialize | lib/after_commit_changes/dirty.rb:25-29 | a new record has an empty log and no baseline, and keeps the attributes and tracker it was given |
| Dirty.BeforeSave | lib/after_commit_changes/dirty.rb:15-17 | without a baseline, the live attribute set becomes the baseline; with one, nothing changes; the log is never touched |
| Dirty.AfterSave | lib/after_commit_changes/dirty.rb:19-21 | the log is one longer, keeps every earlier entry, and ends with this save's change-set; the baseline is untouched |
| Dirty.RunSaves | lib/after_commit_changes/dirty.rb:15-21 | saves append their change-sets in order. The baseline is the attribute set as the transaction's first save leaves it, and later saves never overwrite it |
| Dirty.Rollup | lib/after_commit_changes/dirty.rb:33-44 | the new tracker forces nothing and covers the baseline's attributes. Untouched attributes keep their baseline state. Its `changes` equal this version's net change-set of the entries after the first |
| Dirty.BeforeCommit | lib/after_commit_changes/dirty.rb:7-13 | the log and baseline are always cleared. With more than one save, `saved_changes` reports the net change-set; otherwise the last save's tracker stays. Live attributes are untouched |
| Dirty.TransactionUsesFirstBaseline | lib/after_commit_changes/dirty.rb:7-21 | from an idle record, saves then commit leave the record idle, and the report is the net change-set of saves 2..n over the first save's attributes |
| Dirty.SavesKeepBaseline | lib/after_commit_changes/dirty.rb:15-21 | along the hook order a record never holds logged saves without a baseline |
| Dirty.NetChangesMeaning | lib/after_commit_changes/dirty.rb:33-44 | an attribute is in this version's net set iff its final value differs from its baseline original. `before` is that original, and `after` is the last assigned value, or the baseline value |
| Scenarios.AggregatesAllChanges | spec/after_commit_changes_spec.rb:51-60 | name foo→baz, value bar→biz, name baz→fub reports `{name: [foo, fub], value: [bar, biz]}` |
| Scenarios.NoOpLastSave | spec/after_commit_changes_spec.rb:62-70 | name foo→baz followed by an empty save reports `{name: [foo, baz]}` |
| Scenarios.RevertedValueStillChanged | spec/after_commit_changes_spec.rb:137-149 | name foo→baz, value bar→biz, name baz→foo reports `{name: [foo, foo], value: [bar, biz]}` |
| Scenarios.WillChangeIsReported | spec/after_commit_changes_spec.rb:151-163 | value bar→biz followed by a forced save of name reports `{name: [foo, foo], value: [bar, biz]}` |
| Scenarios.SingleSaveAfterRollup | spec/after_commit_changes_spec.rb:89-104 | after a rolled-up transaction, a single-save transaction logs only its own change-set and `before_commit` leaves its tracker in place |
| Scenarios.ForcedFirstSaveLostOnFreshLog | lib/after_commit_changes.rb:20-31 | with no leftover log, a first save that only forces name is entry 0 and is skipped. Name is not reported: the report is `{value: [bar, biz]}` |
| Scenarios.ForcedFirstSaveKeptBehindStaleEntry | lib/after_commit_changes.rb:12-31 | the same transaction behind the create's leftover entry folds the forced save and reports `{name: [foo, foo], value: [bar, biz]}` |
| Scenarios.NewRecordTracked | spec/after_commit_changes_spec.rb:40-49 | the included version, on `create!` then `update!(name: "baz")` in one transaction, reports id, name and value each from nil to its final value |
| Scenarios.DirtyNewRecordTracked | spec/after_commit_changes_spec.rb:40-49 | the prepended version on the same transaction ends idle. The id is reported from nil, because the baseline reference holds the id the insert wrote |
| Scenarios.DirtyRestoredNotReported | lib/after_commit_changes/dirty.rb:36-43 | in the prepended version, a later save that sets name back to its baseline original leaves name out of the net change-set |
| Scenarios.DirtyAggregatesAllChanges | spec/after_commit_changes_spec.rb:51-60 | the prepended version, run from a new record through create and then the three updates, ends idle and reports `{name: [foo, fub], value: [bar, biz]}` |

## Left out

- Callback registration (`self.included`, `prepended`, the `before_commit`/`after_save`/`before_save` DSL) is left out. The hooks are plain functions on a record state.
- How ActiveRecord produces `@_start_transaction_state[:attributes]` and `saved_changes` is left out. Both are inputs: the `start` parameter and the `saved` change-set.
- Type casting in `ActiveModel::Attribute.from_user` is modelled as identity: the new value is stored as given, and the original is kept.
- The `HashWithIndifferentAccess#to_h` conversion at lib/after_commit_changes.rb:29 is a representation detail and is not modelled.
- Whether an attribute is changed is modelled as `original != value`, or being forced in the included version. ActiveModel's type-aware comparison and in-place mutation detection are not modelled. For the prepended version this is an assumption about a library that is not part of this model. Under this assumption the model reports an attribute restored to its baseline original as unchanged in that version (`Dirty.NetChangesMeaning`, `Scenarios.DirtyRestoredNotReported`). ActiveModel's real comparison could differ.
- `deep_dup` is not modelled as a step: Dafny values are immutable, so the fold cannot alter the baseline or the live attributes.
- Attribute order inside `saved_changes` is not modelled, because reported change-sets are Dafny maps. Change-sets in the log keep their order as sequences.
- The `VERSION` file read at lib/after_commit_changes.rb:4 is file I/O.
- Rollback is not modelled, because the code shown has no rollback handler.
- Records that ActiveRecord instantiates from storage do not run `initialize`, so dirty.rb's log would start as `nil` there. The model only covers records built through `Initialize`.
- AfterCommitChanges.Rollup, AfterCommitChanges.BeforeCommit, Dirty.Rollup: require every name folded after entry 0 to be an attribute of the baseline. What ActiveModel's attribute set returns for an unknown name, and what `from_user` then does with it, is not part of this model.
- Dirty.RunSaves: the baseline reference is modelled as the value of the attribute set when the first save finishes (`Save.attributes`). Writes through that reference after the save's changes are applied are not modelled.
- Dirty.BeforeCommit: requires a baseline whenever more than one save is logged. The source would build a tracker over `nil` if every later change-set were empty. `SavesKeepBaseline` and `TransactionUsesFirstBaseline` show this state cannot be reached in hook order.
- spec/spec_helper.rb is not part of this model: database setup, schema and test configuration. The spec file is used only as a source of expected outputs.
