# edu_diary school backend — a verified model

edu_diary is a Django REST backend for a school. Teachers, parents and students keep accounts
with a profile and student-parent links. They read a weekly timetable with the grades of each
lesson, and teachers post grades. Users talk in chats, teachers publish news under categories,
students work in projects with tasks, and a student's achievements are summarised.

This project models that backend as an in-memory store of tables. Each table is a sequence of
rows in primary-key order, so `.first()` on a query of a model without `Meta.ordering` is the
first matching row; on `Category`, ordered by name, it is the matching row whose name sorts
first. A new row gets one past the highest key stored, except in `ProjectStore`, which keeps the
database's key sequence. It models the following, one Dafny module per source
file:

- `UserModels` (users/models.py): the role choices, unique e-mail login and the one-to-one
  profile. The `StudentParent` model class is not part of this model's sources: the link row's
  shape is read off `StudentParentSerializer` (users/serializers.py:4, 93-105) and the
  `parent_students` relation (school/diary/views.py:31).
- `UserSerializers` (users/serializers.py): registration and the account update (full or
  partial) with the field checks DRF derives from the model, the field-by-field update as a
  `setattr` loop, and the parent-link check with its two-parent limit. `UserDirectory` is a class
  whose methods update the tables in place.
- `DiaryModels` (school/diary/models.py): classes, subjects, timetable rows and grades, with
  their value domains, unique keys and displays.
- `DiarySerializers` (school/diary/serializers.py): `HH:MM` rendering, the grade a lesson shows
  to each role, and the partial grade update.
- `DiaryViews` (school/diary/views.py): the weekly schedule, walked date by date in a `while`
  loop, and the grade upsert. The upsert is the `GradeBook` class.
- `ChatModels` (school/chat/models.py): chat, message and participant rows with their defaults,
  ordering and on-delete rules.
- `ChatViews` (school/chat/views.py): the chat list, chat creation, posting, the message list and
  the unread list. The writes are the `ChatStore` class.
- `NewsViews` (school/news/views.py): the news list ordering, category resolve-or-create and news
  creation behind the teacher gate. The writes are the `NewsStore` class.
- `HomepageModels` (school/homepage/models.py): project codes, defaults, task filters,
  memberships and cascades. The writes are the `ProjectStore` class.
- `HomepageViews` (school/homepage/views.py): a parent's children.
- `AchievementSerializers` (school/achievements/serializers.py): the per-student achievement
  summary.

Support modules:

- `Common`: Option, Result, keys and filtering.
- `Text`: decimal digits, zero padding and `str.strip`.
- `Fields`: the checks a DRF `CharField` makes: stripping, blank, length and the NUL character.
- `Ordering`: a newest-first insertion sort, and the lexicographic order of collation keys.

Each endpoint is a function from the tables and the request to the response and the new tables.
Where a row of "## Findings" shows the code missing its evident intent, that function models
the intended behaviour, and an as-written member beside it models the code as it stands. The
class methods that change the tables are proved equal to those functions. The properties
are proved as lemmas about the functions.

Things the program gets from outside are parameters:

- `now()` is an integer instant;
- `validate_password`, `UnicodeUsernameValidator` and `EmailValidator` are the three predicates
  of a `Validators` value;
- `set_password` is a function `hash`;
- the database collation is a `Collation`: the case folding `fold` behind `iexact` and the sort
  key `key` behind `ORDER BY name`;
- a `DateTimeField` input is an `InstantArg`: malformed, or an instant;
- an avatar's URL is a function `url`;
- `parse_date` is a `DateArg`: absent, malformed, or a day number (the date's ordinal, whose
  weekday is `(ordinal + 6) % 7`, Monday 0).

The weekly response is a map from weekday index `w` to the lesson list shown under
`DayNames[w]`.

## Model

| member | source | states |
|---|---|---|
| UserModels.RoleOf | edu_diary/users/models.py:6-10 | a stored role reads back as one of the three choices exactly when it is spelled `teacher`, `parent` or `student` |
| UserModels.RoleRoundTrip | edu_diary/users/models.py:6-14 | storing a role and reading it back gives the same role |
| UserModels.RoleDisplayDistinguishesChoices | edu_diary/users/models.py:6-10 | different choices have different display labels |
| UserModels.UserDisplayShowsNameAndRole | edu_diary/users/models.py:24-25 | a user renders as the full name, ` (`, the role label, `)`; same name with different roles renders differently |
| UserModels.FindUserWithRole | edu_diary/users/serializers.py:96-101 | finds a user with the given id and role, or reports that none exists |
| UserModels.FindByEmail | edu_diary/users/models.py:12-17 | finds the account a login e-mail names, or reports that none exists |
| UserModels.EmailIdentifiesAccount | edu_diary/users/models.py:12-17 | with unique e-mails, looking up a user's e-mail returns that user |
| UserModels.ProfileOf | edu_diary/users/models.py:29 | `user.profile`: the user's profile row, or none exists |
| UserModels.FirstChildLink | edu_diary/school/diary/views.py:31 | a parent's first link: it belongs to the parent and no earlier link does; none when the parent has no link |
| UserModels.ParentCount | edu_diary/users/serializers.py:117 | the number of link rows naming the student, exactly the size of the filtered table |
| UserSerializers.ValidateRegistration | edu_diary/users/serializers.py:47-59 | registration passes exactly when username and e-mail pass their checks against all accounts, the stripped full name is non-blank, at most 255 long and NUL-free, both passwords are given and non-blank, the stripped password is acceptable and equals the stripped `password2`, the role is a choice and the profile is absent or fits its columns; the validated data holds the stripped values and drops `password2`; unequal passwords alone give `PasswordsDiffer` |
| UserSerializers.CheckUsername | edu_diary/users/serializers.py:54 | a username is accepted exactly when it is given, non-blank once stripped, at most 150 long, NUL-free, of valid format and no account among those compared has it; the accepted value is the stripped text |
| UserSerializers.CheckEmail | edu_diary/users/models.py:12 | an e-mail is accepted exactly when it is given, non-blank once stripped, at most 254 long, NUL-free, a valid address and no account among those compared has it; the accepted value is the stripped text |
| UserSerializers.CheckRole | edu_diary/users/models.py:6-14 | a role is accepted exactly when it is given and spelled `teacher`, `parent` or `student`, and reads back as that choice |
| UserSerializers.CheckProfile | edu_diary/users/models.py:30-33 | nested profile data passes exactly when a given class number is 0 to 32767, and the stripped letter, phone and address fit 1, 15 and any length without NUL; the validated data sets exactly the supplied keys, null as empty, within the column limits |
| UserSerializers.GetOrCreateProfileFacts | edu_diary/users/serializers.py:77-80 | an existing profile is kept unchanged; otherwise one profile with the given defaults is added; either way the user has exactly one profile |
| UserSerializers.RegisteredFacts | edu_diary/users/serializers.py:61-80 | registration appends exactly one user with the given fields and the hashed password, gives it exactly one profile and keeps e-mails, usernames and profiles unique |
| UserSerializers.SetUserField | edu_diary/users/serializers.py:34-35 | `setattr` changes the named attribute to the value and no other attribute |
| UserSerializers.UserDeterminedByAttrs | edu_diary/users/serializers.py:24-29 | a user row is fixed by its key, password and the five editable attributes |
| UserSerializers.ApplyUserFields | edu_diary/users/serializers.py:34-36 | after the loop each attribute holds the last supplied value for it, or its old value; key and password unchanged |
| UserSerializers.SetProfileField | edu_diary/users/serializers.py:40-41 | `setattr` on the profile changes the named field only |
| UserSerializers.ApplyProfileFields | edu_diary/users/serializers.py:40-42 | after the loop each profile field holds the last supplied value, or its old value; key and owner unchanged |
| UserSerializers.ProfileUpdateKeepsLimits | edu_diary/users/models.py:30-33 | a profile updated with valid fields keeps its column limits |
| UserSerializers.ValidateUpdate | edu_diary/users/serializers.py:24-29 | an update passes exactly when every key is present or the update is partial (the avatar is never required), each present key passes its registration check with uniqueness against the other accounts only, and `profile` is not null; the validated data sets exactly the supplied attributes, to the stripped text (a null avatar clears it), and the profile data exactly the supplied profile keys within their columns |
| UserSerializers.CheckAccountKeys | edu_diary/users/serializers.py:24-29 | the account keys pass exactly when each present key passes its check and only a partial update leaves one out |
| UserSerializers.AccountUpdateKeepsValid | edu_diary/users/serializers.py:31-36 | replacing the requester's row by the updated one keeps the accounts tables valid |
| UserSerializers.ReplaceUserKeepsValid | edu_diary/users/serializers.py:34-36 | replacing a row by one with the same key whose e-mail and username are free among the other accounts, or unchanged, keeps the accounts tables valid |
| UserSerializers.ProfileUpdateKeepsValid | edu_diary/users/serializers.py:38-42 | replacing a profile by one with the same key and owner keeps the tables valid |
| UserSerializers.ValidateLink | edu_diary/users/serializers.py:93-122 | a link passes exactly when the student has role student, the parent has role parent and, when creating, the student has fewer than two links |
| UserSerializers.CreatedLinkKeepsAtMostTwo | edu_diary/users/serializers.py:116-120 | links created through validation never give a student a third parent |
| UserSerializers.UpdateSkipsParentLimit | edu_diary/users/serializers.py:116-120 | on update the limit is not checked: a concrete re-pointed link leaves a student with three parents |
| UserSerializers.UserDirectory.Register | edu_diary/users/serializers.py:47-82 | a refused registration changes nothing; an accepted one stores exactly the registered tables; the tables stay valid |
| UserSerializers.UserDirectory.UpdateAccount | edu_diary/users/serializers.py:31-44 | a refused update changes nothing; otherwise only the requester's row changes, each attribute to its supplied value, and the profile changes only when non-empty profile data is given; a user without a profile gets an error after the row was saved |
| UserSerializers.UserDirectory.SaveUpdate | edu_diary/users/serializers.py:36-42 | the updated row is saved; the profile is set only for non-empty profile data, and a user without a profile gets an error after the row was saved |
| UserSerializers.UserDirectory.CreateLink | edu_diary/users/serializers.py:107-122 | a refused link changes nothing; an accepted one appends exactly one link; no student gets more than two parents |
| DiaryModels.ClassDisplayRoundTrip | edu_diary/school/diary/models.py:23-24 | a class display `{number}{letter} ({academic_year})` reads back as its three parts |
| DiaryModels.DistinctClassesRenderDistinctly | edu_diary/school/diary/models.py:21-24 | two classes of the table never share a display |
| DiaryModels.ClassFor | edu_diary/school/diary/views.py:24-27 | the first class in key order with the profile's number and letter, whichever academic year it belongs to, or none exists |
| DiaryModels.FindSubjectTaughtBy | edu_diary/school/diary/views.py:148 | the subject with the given id taught by the requester, or none exists |
| DiaryModels.OneLessonPerSlot | edu_diary/school/diary/models.py:75 | two timetable rows with the same class, day and start time are the same row |
| DiaryModels.FindGrade | edu_diary/school/diary/serializers.py:48-52 | the first grade of the student, subject and date, or none exists |
| DiaryModels.FoundGradeIsTheOnlyOne | edu_diary/school/diary/models.py:104 | under the unique key, a found grade is the only one for its triple |
| DiarySerializers.ClockTextRoundTrip | edu_diary/school/diary/serializers.py:23-27 | a valid time renders in five characters that read back as its hour and minute |
| DiarySerializers.ClockTextIgnoresSeconds | edu_diary/school/diary/serializers.py:23-27 | two times render alike exactly when hour and minute agree |
| DiarySerializers.LessonGrade | edu_diary/school/diary/serializers.py:29-54 | a shown grade is one of the choices, and a grade is shown only with a date and a resolved student |
| DiarySerializers.GradeShownIsTheStudentsGrade | edu_diary/school/diary/serializers.py:47-53 | the grade shown is v exactly when the student has a grade v for that subject and date |
| DiarySerializers.LessonGradeByRole | edu_diary/school/diary/serializers.py:35-54 | student: own grade; parent: the first child's, none without a child; teacher without `student_id`: none; other roles and no date: none |
| DiarySerializers.RenderLesson | edu_diary/school/diary/serializers.py:13-27 | a lesson shows its subject's name, start and end as `HH:MM` of the row's times, and the lesson grade |
| DiarySerializers.CheckGradePatch | edu_diary/school/diary/models.py:94-99 | a grade patch is accepted exactly when the value is not null, a given value is a choice and a given comment is NUL-free once stripped |
| DiarySerializers.ApplyGradePatch | edu_diary/school/diary/serializers.py:7-11 | a partial update is refused exactly when the patch is; otherwise it keeps id, student, subject and date, sets the value when supplied, stores a supplied comment stripped and clears it on null, and keeps the value among the choices |
| DiarySerializers.ReadOnlyFieldsIgnored | edu_diary/school/diary/serializers.py:11 | whatever `id` and `date` a patch carries, the update comes out the same |
| DiaryViews.Weekday | edu_diary/school/diary/views.py:93 | a weekday is one of seven |
| DiaryViews.WeekdayAdvance | edu_diary/school/diary/views.py:108 | moving k days forward within a week moves the weekday by k |
| DiaryViews.DayNamesDistinct | edu_diary/school/diary/views.py:96 | the seven day names are distinct, so no two weekdays share a response key |
| DiaryViews.ClassTimetable | edu_diary/school/diary/views.py:24-28 | the rows of the class the profile names, or nothing when no class matches |
| DiaryViews.VisibleSchedules | edu_diary/school/diary/views.py:20-46 | only stored rows are visible; only a missing profile makes the lookup fail |
| DiaryViews.VisibilityByRole | edu_diary/school/diary/views.py:20-46 | student: their class's rows; parent: the first child's class, nothing without a child; teacher: rows of subjects they teach; anyone else: nothing |
| DiaryViews.DaySchedules | edu_diary/school/diary/views.py:92-102 | a day's rows are exactly the visible rows of that weekday within the range; all empty when the start's weekday is after the end's |
| DiaryViews.DayLessons | edu_diary/school/diary/views.py:102-108 | intended (see Findings row 1): one rendered lesson per row of the day, in the context of that date |
| DiaryViews.ScheduleResponse | edu_diary/school/diary/views.py:67-111 | intended (see Findings row 1): missing dates, a malformed date and a start after the end each give their own 400; success implies start <= end |
| DiaryViews.WeekKeys | edu_diary/school/diary/views.py:96-109 | the response's keys are exactly the weekdays of the dates in the range, so there are at most seven |
| DiaryViews.WeekCoversEveryDate | edu_diary/school/diary/views.py:99-109 | every date of the range has its weekday in the response, holding the lessons of the latest date with that weekday |
| DiaryViews.WrappedWeekIsEmpty | edu_diary/school/diary/views.py:92-94 | when the start's weekday is after the end's, every day list is empty |
| DiaryViews.WalkWeek | edu_diary/school/diary/views.py:99-109 | the loop builds exactly the week the response specifies |
| DiaryViews.ScheduleWeek | edu_diary/school/diary/views.py:67-111 | intended (see Findings row 1): the endpoint answers exactly the specified response |
| DiaryViews.GradeKey | edu_diary/school/diary/views.py:129-154 | non-teacher, missing field, bad date and unknown student or untaught subject each give their own error; success names a stored student and a subject the requester teaches |
| DiaryViews.NewGrade | edu_diary/school/diary/views.py:156-161 | intended (see Findings row 2): a grade is created exactly when a value among the choices is given, with the key and the comment default |
| DiaryViews.PostGradeFailureChangesNothing | edu_diary/school/diary/views.py:134-154 | a rejected grade post leaves the grade table unchanged |
| DiaryViews.PostGradeCreatesOrUpdates | edu_diary/school/diary/views.py:156-169 | with no grade for the key exactly one is appended; otherwise the existing one is rewritten in place and the count is unchanged |
| DiaryViews.PostGradeKeepsTableValid | edu_diary/school/diary/models.py:94-104 | intended (see Findings row 2): a post keeps values among the choices and one grade per (student, subject, date) |
| DiaryViews.GradeBook.Post | edu_diary/school/diary/views.py:129-169 | intended (see Findings row 2): the response and the new table are those of the specified post; the invariants hold |
| DiaryViews.RenderDayAsWritten | edu_diary/school/diary/views.py:102-107 | as written a day renders only when it has no lessons |
| DiaryViews.AsWrittenFailsOnAnyLesson | edu_diary/school/diary/views.py:102-107 | as written any date with a visible lesson fails, while the corrected response lists it |
| DiaryViews.NewGradeAsWritten | edu_diary/school/diary/views.py:156-161 | as written any given value is stored on create |
| DiaryViews.CreateAsWrittenStoresOutOfRangeValue | edu_diary/school/diary/views.py:156-169 | as written a first post of 7 is stored, which the corrected create and the update branch reject |
| ChatModels.ChatTypeOf | edu_diary/school/chat/models.py:18 | a submitted type is read exactly when it is `private` or `group` |
| ChatModels.ChoicesFitColumns | edu_diary/school/chat/models.py:18-50 | each chat type fits 8 characters and each participant role 7, and a type reads back as itself |
| ChatModels.NewChat | edu_diary/school/chat/models.py:16-20 | a new chat has type `private` unless given, and the given last message time, none by default |
| ChatModels.NewParticipant | edu_diary/school/chat/models.py:45-50 | a new participant is a `member` unless given, with no unread count and nothing read |
| ChatModels.NewMessage | edu_diary/school/chat/models.py:30-34 | a new message is unread unless the body says otherwise |
| ChatModels.NewestFirst | edu_diary/school/chat/models.py:39 | messages are a permutation of the table, newest first |
| ChatModels.ClearLastRead | edu_diary/school/chat/models.py:48 | a participant pointing at a missing message loses the pointer and nothing else |
| ChatModels.DeleteMessage | edu_diary/school/chat/models.py:48 | deleting a message removes it and nulls it as anyone's last read message |
| ChatModels.DeleteChat | edu_diary/school/chat/models.py:31-48 | deleting a chat removes it, its messages and its participant rows; other last-read pointers to removed messages are nulled |
| ChatModels.DeleteMessageKeepsReferences | edu_diary/school/chat/models.py:48 | after deleting a message every reference names an existing row |
| ChatModels.DeleteChatKeepsReferences | edu_diary/school/chat/models.py:32-48 | after deleting a chat every reference names an existing row |
| ChatViews.ChatsOf | edu_diary/school/chat/views.py:17-18 | the chat list is exactly the chats the requester has a participant row in |
| ChatViews.ChatsOfListsEachChatOnce | edu_diary/school/chat/views.py:17-18 | with distinct chat keys no chat is listed twice |
| ChatViews.MessagesOf | edu_diary/school/chat/views.py:40-42 | a chat's messages are exactly the messages of that chat, each as often as in the table, newest first, with no membership check |
| ChatViews.UnreadFor | edu_diary/school/chat/views.py:74-78 | exactly the unread messages, sent by others, of chats the requester takes part in, each as often as in the table, newest first |
| ChatViews.CheckType | edu_diary/school/chat/models.py:18 | an omitted type is accepted; null is refused; a given one exactly when it is a choice |
| ChatViews.CheckInstant | edu_diary/school/chat/models.py:20 | an omitted or null `last_message_at` is accepted as none, a given instant is kept, a malformed one is refused |
| ChatViews.ValidateChat | edu_diary/school/chat/models.py:17-20 | a chat body passes exactly when the stripped title is non-empty, at most 255 long and NUL-free, the type is valid and a given `last_message_at` is well-formed; the validated data is the stripped title, the type and the instant |
| ChatViews.ValidateMessage | edu_diary/school/chat/models.py:30-34 | a message body passes exactly when its chat exists, its stripped content is non-empty and NUL-free and `is_read` is not null |
| ChatViews.CreateChatOutcome | edu_diary/school/chat/views.py:20-24 | a valid body adds one chat, with the stripped title, the type and the given last message time, and exactly one participant row, the requester as admin; a refused body changes nothing |
| ChatViews.CreatorListsNewChat | edu_diary/school/chat/views.py:17-24 | a chat's creator sees it in their chat list |
| ChatViews.CreateChatKeepsStoreValid | edu_diary/school/chat/views.py:20-24 | creating a chat keeps keys distinct, references valid and one participant row per member |
| ChatViews.StampLastMessage | edu_diary/school/chat/views.py:59 | only the named chat's last message time becomes `now` |
| ChatViews.PostMessageOutcome | edu_diary/school/chat/views.py:44-59 | a message is stored exactly when the body is valid and the requester takes part in the chat; it is the requester's, in the URL's chat, and stamps that chat only; a refusal changes nothing |
| ChatViews.ReadStateUntouched | edu_diary/school/chat/views.py:13-83 | neither creating nor posting changes `is_read`, `unread_count` or `last_read_message` of existing rows |
| ChatViews.PostMessageKeepsStoreValid | edu_diary/school/chat/views.py:44-59 | a post keeps keys distinct, references valid and memberships unique |
| ChatViews.PostStatus | edu_diary/school/chat/views.py:44-53 | intended (see Findings row 3): 201 exactly for a stored message, 403 exactly for a non-participant |
| ChatViews.CreatedMeansStored | edu_diary/school/chat/views.py:44-59 | with the refusal reaching the client, 201 means exactly one message was stored |
| ChatViews.PostStatusAsWritten | edu_diary/school/chat/views.py:44-53 | as written every valid body is answered 201, never 403 |
| ChatViews.NonMemberToldCreatedAsWritten | edu_diary/school/chat/views.py:44-53 | as written a non-participant with a valid body is told 201 while nothing is stored |
| ChatViews.ChatStore.Create | edu_diary/school/chat/views.py:20-24 | the new tables and response are those of chat creation; the store stays valid |
| ChatViews.ChatStore.Post | edu_diary/school/chat/views.py:44-59 | intended (see Findings row 3): the new tables and response are those of the post; the store stays valid |
| NewsViews.NewsList | edu_diary/school/news/views.py:26-27 | the news list is a permutation of the news, newest `publish_date` first |
| NewsViews.Classify | edu_diary/school/news/views.py:60-77 | a falsy category is required; an all-ASCII-digit string or positive integer is a key; another string is its stripped name; anything else is a bad format |
| NewsViews.FindCategoryNamed | edu_diary/school/news/views.py:72 | among the categories whose folded name equals the folded input, one whose name sorts first under `ordering = ['name']`; none when no name matches |
| NewsViews.ResolveByKey | edu_diary/school/news/views.py:65-70 | a key resolves exactly when that category exists, adding nothing; otherwise not found |
| NewsViews.ResolveByName | edu_diary/school/news/views.py:71-74 | a matching name is reused, the one that sorts first; otherwise exactly one category with the stripped name and a fresh key is added |
| NewsViews.ResolveKeepsCategoriesValid | edu_diary/school/news/views.py:71-74 | resolving keeps category keys and names unique and loses no category |
| NewsViews.ValidateNews | edu_diary/school/news/views.py:79-81 | the body passes exactly when the stripped title is non-empty, at most 255 long and NUL-free and the stripped content is non-empty and NUL-free |
| NewsViews.CreateNewsRefusals | edu_diary/school/news/views.py:41-77 | anonymous and non-teacher requests change nothing; a falsy, unknown or ill-typed category is refused before anything is written |
| NewsViews.CreateNewsSuccess | edu_diary/school/news/views.py:79-84 | a created item is by the requester, under the resolved category, with stripped title and content and a fresh key; nothing else changes but the resolved category |
| NewsViews.RefusedBodyKeepsNewCategory | edu_diary/school/news/views.py:71-81 | a category created from a name stays even when the body is then refused |
| NewsViews.CreateNewsKeepsValid | edu_diary/school/news/views.py:56-84 | every outcome keeps keys distinct, names unique and categories of news existing |
| NewsViews.NewsStore.Create | edu_diary/school/news/views.py:56-84 | the new tables and response are those of news creation; the store stays valid |
| HomepageModels.ProjectCodeRoundTrip | edu_diary/school/homepage/models.py:18 | a code reads back as its number and has nine characters below 10^7 |
| HomepageModels.ProjectCodeInjective | edu_diary/school/homepage/models.py:18 | different numbers give different codes |
| HomepageModels.FirstProjectCode | edu_diary/school/homepage/models.py:17-18 | the first code is `PN0000001` |
| HomepageModels.GenerateProjectCode | edu_diary/school/homepage/models.py:15-18 | the code's number is one past the highest project key, or 1 with no projects |
| HomepageModels.CodeOnSave | edu_diary/school/homepage/models.py:39-42 | saving keeps an existing code and fills an empty one |
| HomepageModels.SaveIsIdempotent | edu_diary/school/homepage/models.py:39-42 | saving twice gives the code of saving once |
| HomepageModels.NewProject | edu_diary/school/homepage/models.py:27-36 | a new project is `ACTIVE` and `MEDIUM` unless given |
| HomepageModels.NewTask | edu_diary/school/homepage/models.py:83 | a new task is `NEW` unless given |
| HomepageModels.AllTasks | edu_diary/school/homepage/models.py:47-49 | exactly the project's tasks |
| HomepageModels.ActiveTasks | edu_diary/school/homepage/models.py:51-53 | exactly the project's tasks that are `NEW` or `IN_PROGRESS` |
| HomepageModels.ActiveTasksWithinAll | edu_diary/school/homepage/models.py:47-53 | the active tasks are the open tasks among all tasks, never more numerous |
| HomepageModels.GeneratedCodeIsFree | edu_diary/school/homepage/models.py:15-22 | a generated code is used by no stored project |
| HomepageModels.CreateKeepsProjectsValid | edu_diary/school/homepage/models.py:22-42 | saving a new project under the next key keeps keys and codes unique |
| HomepageModels.UserDeleted | edu_diary/school/homepage/models.py:67-84 | deleting a user removes their memberships and unassigns their tasks, nothing else |
| HomepageModels.UserDeletedLeavesNoReference | edu_diary/school/homepage/models.py:67-84 | after deleting a user no membership or task refers to them |
| HomepageModels.ProjectStore.Create | edu_diary/school/homepage/models.py:15-42 | a new project gets the next key and the generated code; nothing else changes; codes stay unique |
| HomepageModels.ProjectStore.Resave | edu_diary/school/homepage/models.py:39-42 | saving a stored project changes nothing |
| HomepageModels.ProjectStore.Delete | edu_diary/school/homepage/models.py:66-80 | deleting a project removes it, its members and its tasks; the invariants hold |
| HomepageModels.ProjectStore.AddMember | edu_diary/school/homepage/models.py:65-76 | a member is refused exactly when the project is missing or the student is already in it; otherwise one row is appended |
| HomepageModels.ProjectStore.AddTask | edu_diary/school/homepage/models.py:79-85 | a task is refused exactly when the project is missing; otherwise one `NEW`-by-default task is appended |
| HomepageViews.MyChildren | edu_diary/school/homepage/views.py:25-32 | empty for a non-parent; otherwise exactly the students linked to the requester |
| HomepageViews.MyChildrenListsEachChildOnce | edu_diary/school/homepage/views.py:29-32 | no child is listed twice |
| AchievementSerializers.AchievementsOf | edu_diary/school/achievements/serializers.py:15 | exactly the student's achievements |
| AchievementSerializers.FirstByPlace | edu_diary/school/achievements/serializers.py:23 | an achievement with the lowest place, the first such in the table (the database's tie order is not modelled) |
| AchievementSerializers.Summarize | edu_diary/school/achievements/serializers.py:14-24 | id and name copied; avatar iff the student has one; class number from the profile or none; participation count = number of achievements; top achievement none iff there are none, else the first with the lowest place |
| AchievementSerializers.CountsAgree | edu_diary/school/achievements/serializers.py:21-22 | the two counts are equal, because every achievement has a place |

## Left out

- Authentication, sessions, login and logout are not modelled. Each view takes the requester as an
  argument; the news view takes `Option<User>` for the anonymous case.
- `validate_password`, the username and e-mail format validators, `set_password`, `now()`, the
  database collation behind `iexact` and `ORDER BY name`, and `avatar.url` are opaque parameters.
- Parsing a `DateTimeField` string is not modelled: `last_message_at` is malformed or an instant.
- DiarySerializers.CheckGradePatch: the grade value is an integer, so a value sent as a numeric
  string is not modelled; the source's ChoiceField looks up `str(data)` and accepts `"5"`.
- UserSerializers.CheckProfile: the class number is an integer, so a class number sent as a
  numeric string, which the source's `IntegerField` accepts, is not modelled.
- Tables other than `ProjectStore`'s projects take a new key one past the highest stored key, so
  after the row with the highest key is deleted its key is reused; the database's sequence never
  reuses a key.
- Ties are broken by table order where the source leaves the order to the database: two
  category names the collation sorts alike (`ordering = ['name']`), two achievements with the same
  place (`order_by('place')`), and a day's timetable rows (`Schedule` has no `Meta.ordering`).
- `parse_date` is a parameter: the model does not decide which strings are valid dates.
- Response bodies are not rendered as JSON. A view returns a result value, and the week is a map
  keyed by weekday index.
- DRF reports every invalid field at once; the model reports the first failing field.
- Avatar and image uploads, `auto_now` timestamps other than `created_at`, and pagination are
  storage or framework concerns and are not modelled.
- `CategoryViewSet` CRUD is not modelled; only its teacher gate is modelled, shared with news
  creation.
- Event tables, the plain list views, admin registration, signals and URL routing are not part of
  this model.
- The duplicate chat models in school/models.py and the seeding script populate_data.py are not
  part of this model.
- NewsViews.Classify treats only ASCII digits as digits. `str.isdigit` also accepts non-ASCII
  digits: the source reads a string of Unicode decimal digits (such as Arabic-Indic or fullwidth
  digits) as a category key through `int()`, where the model reads it as a category name; only
  digits that are not decimal (such as superscripts or circled digits) make `int()` raise a
  server error.
- `Category.objects.create` does not enforce the 100-character name limit. The model stores the
  stripped name whatever its length.
- User deletion cascades beyond the project tables (grades, links, messages) are not modelled.
- Ordering of tasks and projects by date is not modelled.
- The chat list's join is modelled as a filter of the chat table. The join would repeat a chat for
  a user with two participant rows in it, which the store invariant `OneRowPerMember` rules out.
- `ChatSerializer` lists a `participants` field that `Chat` does not have. It is read-only, so it
  does not affect what is stored, and its rendering is not modelled.
- Concurrency and races, such as two simultaneous grade posts, are not modelled; the source has no
  locking.
- A server error other than a missing profile or a missing attribute (for example a database
  failure) is not modelled.

## Findings

| source | as written | input that shows it | evidently intended | confidence | as-written member | corrected member |
|---|---|---|---|---|---|---|
| edu_diary/school/diary/views.py:102-107 | each day's timetable rows are rendered with `ScheduleSerializer`, whose required `day` field reads an attribute a timetable row does not have | any week in which one date has a visible lesson: the render of that day raises instead of listing the lesson | render the rows with `LessonSerializer`, as the documented response shows | not executed | DiaryViews.AsWrittenFailsOnAnyLesson | DiaryViews.DayLessons |
| edu_diary/school/diary/views.py:156-161 | the create branch stores `request.data.get('value')` through `get_or_create` with no choice check, while the update branch validates the value | a first post with value 7 for a fresh (student, subject, date) stores grade 7 | validate the value on create as on update, so every stored grade is 2 to 5 | not executed | DiaryViews.CreateAsWrittenStoresOutOfRangeValue | DiaryViews.NewGrade |
| edu_diary/school/chat/views.py:44-53 | `perform_create` returns a 403 response that DRF discards, so the client gets 201 with the body although nothing is stored | a valid message posted by a user without a participant row in the chat | answer 403 to a non-participant, so 201 means a stored message | not executed | ChatViews.NonMemberToldCreatedAsWritten | ChatViews.CreatedMeansStored |
