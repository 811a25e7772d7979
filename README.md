# Stockpot recipe site: a verified model of its core rules

Stockpot is a Flask recipe-sharing site. Users sign up, follow each other,
publish recipes with ingredients, steps, an image and prep and cook times,
and comment on recipes. Moderators can hide comments. This project models
the parts of the site that make decisions, and proves what those decisions
guarantee.

- **Durations** (`DurationGrammar`, `Fields`). The prep-time and cook-time
  fields accept text such as `1h 30m`. That text is matched against one
  anchored pattern of five optional components in a fixed order: weeks,
  days, hours, minutes, seconds. The model turns the pattern into a
  tokenizer and proves it is sound and complete against a declarative
  description of the pattern's matches. It proves the parser returns
  `None`, a `timedelta`, or `ValueError`/`OverflowError` exactly as the code
  does. It proves what formatting a duration as `{d}d {h}h {m}m {s}s` and
  parsing it back gives. A non-negative duration comes back as the same
  `timedelta` without its microseconds. A negative duration is written as
  `-Nd ...`, which does not match, so it parses to `None`.
- **Permissions and roles** (`Models`). Permissions are bit flags and
  `can` is a bitwise-subset test. `insert_roles` is an upsert keyed by role
  name. A new user gets the administrator role or the default role. Account
  confirmation is a guarded flag. Recipe images are replaced or deleted
  against a set of stored files.
- **Form validation** (`Forms`). The username pattern and length limits,
  the email and username uniqueness checks, the duration checks, and
  the role choices ordered by name.
- **View decisions** (`Views`). Who may edit, delete or create a recipe.
  The "last comment page" arithmetic. The comment moderation flags. The
  follow and unfollow guards. Which recipe feed the index shows.
- **Dynamic form rows** (`DynamicForm`). The client-side script renumbers
  `-N-` in the ids and names of a cloned ingredient or step row, and clears
  its inputs. The remove button takes a row id prefix and never deletes the
  last row.

Python's `datetime.timedelta` is modelled in its normal form: whole days,
`0 <= seconds < 86400`, microseconds. Creating one with more than
999999999 days raises `OverflowError`. Regex classes are ASCII: `\d` is
`0`-`9` and `\s` is space, `\t`..`\r` and `\x1c`..`\x1f`.

Notes on the pattern as compiled:

- **Units are case-sensitive.** The pattern is compiled without
  `re.IGNORECASE`, so `1H` does not match.
- **A decimal number raises.** `[\d.]+` captures `1.5`, and then
  `int('1.5')` raises `ValueError`.
- **Some whitespace is rejected.** The pattern has no `\s*` before the weeks
  component or after the seconds component. So ` 1w` and `5s ` do not
  match, while ` 1d` and `1h ` do.

## Model

| member | source | states |
|---|---|---|
| DurationGrammar.UnitSlotIff | app/main/fields.py:7-11 | a unit spelling belongs to a slot exactly when it is one of that slot's listed synonyms (case-sensitive) |
| DurationGrammar.UnitFacts | app/main/fields.py:7-11 | every unit is a non-empty run of letters and names one of the five slots |
| DurationGrammar.TableDistinct | app/main/fields.py:7-11 | no spelling is listed for two slots, so a unit determines its slot |
| DurationGrammar.FullMatchIff | app/main/fields.py:13-24 | the tokenizer succeeds exactly on strings the pattern fullmatches, and then returns a match with the groups of any match of the string |
| DurationGrammar.GroupsDetermined | app/main/fields.py:13-27 | two matches of the same string capture the same groups, so groupdict() does not depend on backtracking order |
| DurationGrammar.FullMatchStart | app/main/fields.py:13-24 | a matching string never starts with a letter or other non-space, non-number character |
| DurationGrammar.Unrecognised | app/main/fields.py:13-26 | "banana" does not match |
| DurationGrammar.BlankMatches | app/main/fields.py:13-24 | the empty string and every whitespace-only string match with no group taking part |
| DurationGrammar.OutOfOrder | app/main/fields.py:13-26 | "3h 2w" does not match: components must come in the order weeks, days, hours, minutes, seconds |
| DurationGrammar.SpaceBeforeWeeks | app/main/fields.py:13-24 | " 1w" does not match: no whitespace may come before a weeks component |
| DurationGrammar.SpaceAfterSeconds | app/main/fields.py:13-24 | "5s " does not match: no whitespace may follow a seconds component |
| DurationGrammar.SpaceAfterHours | app/main/fields.py:13-24 | "1h " matches, one instance of the rule below |
| DurationGrammar.TrailingSpace | app/main/fields.py:13-24 | for any match, whitespace appended after it still fullmatches with the same groups when the seconds group is absent, and never fullmatches when the seconds group took part |
| Decimal.ValueOfNatStr | app/main/fields.py:32 | int() of the decimal digits of n is n |
| Decimal.ValueOfLeadingZero | app/static/dynamicForm.js:7 | a leading zero does not change the value of a digit string |
| Decimal.DigitRun | app/static/dynamicForm.js:6 | the length of the longest run of digits at the start of a string |
| Fields.FromSeconds | app/main/fields.py:34 | timedelta(seconds=total) is a normalized value of total seconds and no microseconds when it has at most 999999999 days, and raises OverflowError otherwise |
| Fields.ParseDuration | app/main/fields.py:23-34 | parse_duration returns None without a match, raises ValueError when a group is not an integer, and otherwise returns the timedelta of the groups it collected |
| Fields.FillParams | app/main/fields.py:29-32 | the loop over the groups adds int(param) under each group that took part, in pattern order, and stops at the first int() that raises |
| Fields.ParamsMeaning | app/main/fields.py:29-32 | the loop fails exactly when a visited group holds a '.', and otherwise its arguments add up to the weighted total of the visited groups, with the unvisited groups not yet present |
| Fields.TotalOf | app/main/fields.py:29-34 | the total of the five groups is weeks*604800 + days*86400 + hours*3600 + minutes*60 + seconds, an absent group contributing 0 |
| Fields.DurationMeaning | app/main/fields.py:23-34 | parse_duration gives None exactly when no match of the pattern spells the string; for a match it gives ValueError when some group has a '.', else the timedelta of the weighted total |
| Fields.DurationNoMatch | app/main/fields.py:24-26 | None exactly when no match of the pattern spells the string |
| Fields.DurationOfMatch | app/main/fields.py:27-34 | the result for a string that matches, from the groups of any of its matches |
| Fields.DurationValueNormal | app/main/fields.py:34 | every parsed duration is normalized, non-negative and has no microseconds |
| Fields.BlankIsZero | app/main/fields.py:23-34 | the empty string and whitespace-only strings parse to timedelta(), not None |
| Fields.NinetyMinutes | app/main/fields.py:23-34 | "1h 30m" parses to 5400 seconds |
| Fields.FractionRaises | app/main/fields.py:32 | "1.5h" matches, and then int() raises ValueError |
| Fields.LetterUnits | app/main/fields.py:8-11 | the letters d, h, m, s that _value writes are units of the days, hours, minutes and seconds slots |
| Fields.Clock | app/main/fields.py:46-47 | the two divmod calls split seconds into h*3600 + m*60 + s with m, s < 60, and h < 24 within one day |
| Fields.FromDaySeconds | app/main/fields.py:34 | timedelta of d days plus sec < 86400 seconds is exactly (d, sec, 0) |
| Fields.FormatParses | app/main/fields.py:23-49 | parse_duration(_value(t)) is t without its microseconds, for every non-negative t |
| Fields.NegativeFormatFails | app/main/fields.py:23-49 | the text _value writes for a negative duration ("-1d ...") does not match, so it parses to None |
| Fields.FormatZero | app/main/fields.py:48-49 | timedelta() is shown as "0d 0h 0m 0s" |
| Fields.DurationField.constructor | app/main/fields.py:37 | a new field holds the data it is given, None or a normalized timedelta |
| Fields.DurationField.Value | app/main/fields.py:40-49 | _value first replaces missing data by timedelta(), then returns the text of the data; data stays None or a normalized timedelta |
| Fields.DurationField.ProcessFormdata | app/main/fields.py:52-53 | process_formdata stores parse_duration of the first submitted value; no value raises IndexError and a decimal raises ValueError, leaving data as it was; data stays None or a normalized timedelta |
| Fields.FormdataKeeps | app/main/fields.py:52-53 | a raising submission keeps the old data; a successful one stores None or a normalized non-negative duration |
| Fields.FormdataRoundTrip | app/main/fields.py:40-53 | resubmitting the text _value shows stores the same duration for non-negative data, and None for negative data |
| Fields.FormdataBlank | app/main/fields.py:52-53 | an empty box stores the zero duration, which is shown as "0d 0h 0m 0s" |
| Models.HoldsAll | app/models.py:186-188 | held & p == p exactly when every bit of p is set in held |
| Models.CanIff | app/models.py:186-188 | can(p) holds exactly when there is a role and it has every bit of p |
| Models.CanNothing | app/models.py:186-188 | can(0) holds exactly when a role is present, and without a role nothing is allowed |
| Models.CanUnion | app/models.py:186-188 | can(p \| q) holds exactly when can(p) and can(q) hold |
| Models.AdministerIsModerate | app/models.py:18-19 | is_administrator() is the same test as can(MODERATE_COMMENTS), since both flags are 0x08 |
| Models.PermissionValues | app/models.py:38-44 | the User role's permissions are 0x07 and the Moderator role's are 0x0f |
| Models.RoleRanks | app/models.py:36-46 | Moderators count as administrators, Users do not but may write recipes, and 0xff allows every permission up to 0xff |
| Models.PrincipalCanIff | app/models.py:210-216 | the anonymous user can do nothing and is no administrator; a signed-in user can do p exactly when its role holds every bit of p |
| Models.FindRole | app/models.py:48 | filter_by(name).first() gives the first row with that name, or none when no row has it |
| Models.RoleTable.InsertRoles | app/models.py:36-54 | insert_roles upserts User, Moderator and Administrator in turn, updating a row of that name in place or appending one |
| Models.InsertedRolesResult | app/models.py:36-54 | afterwards each of the three names is found with exactly its permissions and default flag; rows keep their names, rows of other names are untouched, and at most three rows are added, each one of the three roles |
| Models.InsertRolesIdempotent | app/models.py:47-53 | running insert_roles twice leaves the same table as running it once |
| Models.InsertRolesUnique | app/models.py:47-53 | insert_roles never creates a second row of a name |
| Models.FirstRoleIff | app/models.py:142-144 | the query finds a role exactly when some row has the permissions (or the default flag) asked for, and the role it finds has them |
| Models.ChooseRoleMeaning | app/models.py:138-144 | a given role is kept; the admin address gets a 0xff role when one exists; otherwise the user gets a default role, or none when no row is default |
| Models.UnsetAdminQuirk | app/models.py:140-142 | with no admin address configured, a user created without an email also gets the 0xff role, since None == None |
| Models.User.constructor | app/models.py:138-144 | a new user keeps its fields and gets the role chosen as above |
| Models.User.Confirm | app/models.py:173-183 | confirm returns true and sets confirmed exactly when the token decodes to this user's id, and changes nothing else |
| Models.ConfirmsOwn | app/models.py:173-183 | a user's own token confirms it, another user's does not, and an undecodable token or one without an id never confirms a stored user |
| Models.Recipe.DeleteImg | app/models.py:81-83 | delete_img removes the image file unless it is the default image; a missing file raises FileNotFoundError |
| Models.Recipe.UpdateImg | app/models.py:86-89 | update_img deletes the old image only when the name changes, then stores the new name |
| Models.UpdateImgMeaning | app/models.py:81-89 | the name ends up as filename unless deleting raised; a file is removed only when the name changes and the old name is not the default, and only that file |
| Models.UpdateImgIdempotent | app/models.py:86-89 | a second update_img with the same name changes nothing |
| Forms.UsernamePatternIff | app/main/forms.py:23 | the pattern, used with re.match and '$', accepts a name and also a name followed by one newline |
| Forms.UsernameValidIff | app/main/forms.py:22-25 | a username is accepted exactly when it has 1 to 64 characters and is a name, or a name followed by a newline |
| Forms.UsernameExamples | app/main/forms.py:22-25 | "chef_1.a" and "chef\n" are accepted; "1chef", "chef!", "" and missing data are refused |
| Forms.StrictUsername | app/main/forms.py:23 | with an end-of-string anchor no accepted name ends in a newline, and that is the only difference from the written pattern |
| Forms.LengthRules | app/main/forms.py:68 | a title is accepted exactly when it has 1 to 64 characters, not all whitespace; name and location (lines 13-14 and 28-29) just may not pass 64 characters |
| Forms.UniquenessMeaning | app/main/forms.py:39-47 | each check refuses exactly a changed email or username that some user already has; keeping one's own always passes |
| Forms.DurationCheck | app/main/forms.py:84-95 | after a submission that raised nothing, a duration check fails exactly when the text did not match; an empty box passes with timedelta(), the fields' default (lines 70-71) |
| Forms.InsertByName | app/main/forms.py:35-36 | inserting a role into the choices adds exactly that role |
| Forms.InsertSorted | app/main/forms.py:35-36 | inserting keeps the choices ordered by name |
| Forms.RoleChoicesSorted | app/main/forms.py:35-36 | the choices are all the roles, as a permutation, ordered by name |
| Views.EditAccess | app/main/views.py:252-254 | a Moderator may edit any recipe, a User only their own, the anonymous user none |
| Views.EditGateMeaning | app/main/views.py:251-254 | edit_recipe reaches the form exactly for an existing recipe and its author or an administrator, and answers 404 for a missing recipe before any 403 |
| Views.DeleteMeaning | app/main/views.py:279-282 | anyone but the author, administrators included, changes nothing; the author removes that recipe and at most its image file |
| Views.CreateAccess | app/main/views.py:183-185 | a User may create a recipe with a valid POST; the anonymous user and a user without a role may not |
| Views.BuildIngredients | app/main/views.py:186-195 | one ingredient per position pairs the amount, unit and name there, as many as the shortest list |
| Views.CreateMeaning | app/main/views.py:183-219 | a recipe is created exactly for an allowed POST whose upload, if any, was saved; it is then the only row added, its author is the current user, and its image is the default image when nothing was uploaded and the saved name otherwise; in every other case, a refused upload included, the table is unchanged and the form is shown again |
| Views.CreatedIsEditable | app/main/views.py:208-254 | the author of a recipe just created passes edit_recipe's gate for it |
| Views.LastPage | app/main/views.py:237-239 | page -1 becomes the smallest p with p * per_page >= count, which is 0 with no comments |
| Views.Comment.Enable | app/main/views.py:301-304 | moderate_enable clears disabled and changes no other field |
| Views.Comment.Disable | app/main/views.py:312-315 | moderate_disable sets disabled and changes no other field |
| Views.FollowGuards | app/main/views.py:69-96 | follow() is called only for an existing user not followed yet, unfollow() only for one followed; at most one of the two applies; a missing user is refused by both |
| Views.FollowTwice | app/main/views.py:74-96 | after the follow view the target is followed, so a second follow only reports "already following"; after the unfollow view it is not, so a second unfollow only reports "not following"; unfollowing after following leaves the target not followed; a missing target changes nothing |
| Views.FeedChoice | app/main/views.py:19-48 | /all makes everyone see all recipes; /followed makes a signed-in user see the followed feed; the anonymous user and a missing cookie never do |
| DynamicForm.MarkerLen | app/static/dynamicForm.js:6 | the digit count of a -digits- marker at the start of the string, as the regex reads it |
| DynamicForm.IncrementUnchangedIff | app/static/dynamicForm.js:5-9 | increment leaves a string unchanged exactly when it contains no -digits- |
| DynamicForm.MarkerChanges | app/static/dynamicForm.js:5-9 | a string starting with -digits- is always changed |
| DynamicForm.IncrementLiteral | app/static/dynamicForm.js:6 | text without a '-' is copied unchanged in front of the rest |
| DynamicForm.IncrementMarker | app/static/dynamicForm.js:5-9 | -N- becomes -(N+1)- and the scan goes on after its closing dash |
| DynamicForm.IncrementPlain | app/static/dynamicForm.js:6 | a string without '-' is unchanged |
| DynamicForm.IncrementRowId | app/static/dynamicForm.js:5-9 | an id such as field-N-rest has its row number raised by one and nothing else changed |
| DynamicForm.IncrementSharedDash | app/static/dynamicForm.js:6 | in -a-b- only a is raised, since the first match consumes the shared dash |
| DynamicForm.IncrementLeadingZero | app/static/dynamicForm.js:7 | parseInt drops leading zeros: -0N- is renumbered as -N- is |
| DynamicForm.ClonedRules | app/static/dynamicForm.js:15-33 | the clone has the row's length; elements the loop skips are unchanged; a visited element keeps its tag, type and class, gets its id incremented and a non-empty name incremented, every textarea and non-hidden input is emptied, a hidden input keeps its value, other elements keep theirs, and a select keeps no selected option |
| DynamicForm.RenumberClone | app/static/dynamicForm.js:15-33 | the .each loop rewrites the clone's elements in place into the cloned row |
| DynamicForm.ClonedMeaning | app/static/dynamicForm.js:21-32 | in the clone the CSRF token keeps its value, other inputs and every textarea are empty, and selects have nothing selected |
| DynamicForm.ClonedSameIds | app/static/dynamicForm.js:15-16 | a clone element keeps its id exactly when it was not visited or its id has no -digits- |
| DynamicForm.Split | app/static/dynamicForm.js:39 | split('-') gives at least one piece and no piece contains '-' |
| DynamicForm.JoinSplit | app/static/dynamicForm.js:39 | joining the pieces of a split with '-' gives the id back |
| DynamicForm.IdPrefixMeaning | app/static/dynamicForm.js:39 | the id prefix is a prefix of the id with at most one '-', and is the whole id or stops just before its second '-' |
| DynamicForm.SplitCons | app/static/dynamicForm.js:39 | splitting a-rest gives a, then the pieces of rest |
| DynamicForm.IdPrefixOfRow | app/static/dynamicForm.js:39-40 | the remove button field-N-remove names the row field-N |
| DynamicForm.FindRow | app/static/dynamicForm.js:40 | $('#' + id) finds the first row with that id, or none |
| DynamicForm.RemoveKeepsOne | app/static/dynamicForm.js:40-44 | the list never becomes empty; a click removes at most the row the button names and keeps the order of the rest |
| DynamicForm.RowList.AddField | app/static/dynamicForm.js:11-35 | add-field appends a renumbered and cleared clone of the last row, and does nothing to an empty list |
| DynamicForm.RowList.Remove | app/static/dynamicForm.js:37-45 | the remove handler removes the named row only when it has a sibling |

## Left out

- The follow graph: `is_following`, `follow` and `unfollow` are not defined in app/models.py, and the views only call them. Their state is reduced to two booleans: the target exists, and it is followed.
- Cryptography and hashing: password hashes, token signing and expiry, and the MD5 avatar hash are foreign library calls. `confirm` takes the decoded token as an input: either it failed to decode, or it decoded to an optional id.
- Flask and SQLAlchemy plumbing: routing, templates, flash messages, redirects, cookies, pagination internals, sessions and commits. Also left out: `login_required` and the bodies of the permission decorators, which are not part of this model. The `before_delete` hook is the `delete_img` call inside `Views.DeleteRecipe`, not a flush-time event.
- New recipe ids: the id the database gives a new recipe is an input, taken to be one no stored recipe has.
- File uploads: `recipe_imgs.save` is an input, either the saved name or a refusal. `recipe_imgs.path` is taken to map different names to different files.
- Floating point: ingredient amounts are a type parameter. The float division inside `ceil` is taken as exact integer ceiling division. A comments-per-page setting of 0 raises `ZeroDivisionError`.
- Unicode regex classes: `\d` and `\s` are ASCII only. The `print` calls in `parse_duration` and `create_recipe` write to the console only.
- Python's limit on the number of digits `int()` converts is not modelled.
- The `time_regex` parameter of `parse_duration` is fixed to its default `TIME_REGEX`, the only value the code passes.
- Overflow example: the overflow is stated for all inputs by `Fields.FromSeconds`. There is no concrete example of a string like "142857143w" that overflows.
- WTForms internals: catching the `ValueError` from `process_formdata`, the `Email()` validator, and how `Required()` reports errors.
- SQL semantics: role names are ordered by character code, not by a database collation. `first()` returns rows in table order. Negative or NULL permission values are not modelled.
- DynamicForm.Increment: `parseInt` is exact here. JavaScript numbers lose precision beyond 2^53, and very long digit runs become exponent notation or `Infinity`.
- Document-wide lookup: `$('#' + idPrefix + '-group')` searches the whole document, but the model searches one list of rows. It does not model selector escaping, the jQuery clone of the DOM subtree beyond its list of elements, event binding, or `previewImage` and `FileReader`.
- Literal examples: the examples `"-007-"` and `"a-1-2-"` are stated with general digit strings (IncrementLeadingZero, IncrementSharedDash), not as literals.
- config.py, autoapp.py and tests/test_auth.py: configuration and test plumbing, outside the core.

## Findings

| source | as written | input that shows it | evidently intended | confidence | as-written member | corrected member |
|---|---|---|---|---|---|---|
| app/main/forms.py:23 | `Regexp('^[A-Za-z][A-Za-z0-9_.]*$')` runs with `re.match`, and `$` also matches before a final newline | `"chef\n"` is accepted as a username | only letters, digits, dots and underscores, so no trailing newline | not executed | Forms.UsernameExamples | Forms.StrictUsername |
