# Restaurants, pizzas and their prices — a verified model

This project models a small HTTP service over three tables: `restaurants`,
`pizzas` and `restaurant_pizzas`, the join table that gives a pizza a price at
a restaurant. It covers the service's domain rules (`server/models.py`) and its
five data routes (`server/app.py`). The relational store becomes a class,
`App.Store`, that holds one map per table, from primary key to row. The routes
become members of that class that return a status code and a body:

- `GET /restaurants` and `GET /pizzas` are functions: full scans projected to
  three columns each.
- `GET /restaurants/<id>` is a function: the restaurant with its join rows,
  or a 404.
- `DELETE /restaurants/<id>` and `POST /restaurant_pizzas` are methods that
  change the maps.

Modules, one per concern:

- `Wrappers` (`wrappers.dfy`): `Option` and `Result`.
- `Json` (`json.dfy`): the JSON values the handlers build, with member lookup.
- `Table` (`table.dfy`): what the handlers rely on from SQLite. A full scan
  visits rows by ascending id (`ScanOrder`). A new row gets one more than the
  largest id, or 1 (`NextId`). A listing projects every row once, in that
  order (`Listing`).
- `Models` (`models.dfy`): the three row types, the price validator, `to_dict`
  of a join row, the serialized form of a restaurant, and the shape a
  consistent store keeps.
- `App` (`app.dfy`): the response shapes and the `Store` class with the
  handlers.

The database is SQLite, the default one, throughout the model. Whether it
enforces foreign keys is a constant of the store, `enforcesForeignKeys`.
SQLite enforces them only on a connection that has run
`PRAGMA foreign_keys = ON`. The service never runs it, so for the service as
written the flag is false. The flag being true stands for the same SQLite
database with that pragma switched on. The create handler commits the new row before it looks up the
pizza and the restaurant. So with an unresolved id:

- when foreign keys are enforced, the commit fails, nothing is written, and
  the reply is the generic 400;
- when they are not enforced, the row stays in the table and the reply is
  still the generic 400.

The model states both cases and claims no atomicity beyond that.

Notes on the code's behaviour:

- The missing-key message is `Missing key: 'price'`, with the key quoted,
  because Python's `str()` of a `KeyError` quotes its argument.
- An unresolved reference on create is not rejected before the insert (see
  above).
- The 201 reply nests only `id` and `name` of the pizza and the restaurant.
- `RestaurantPizza.to_dict` is flat: it embeds neither the pizza nor the
  restaurant.

## Model

| member | source | states |
|---|---|---|
| Models.ValidatePrice | server/models.py:79-83 | accepts a price exactly when 1 <= p <= 30 and then returns it unchanged; otherwise fails with "Price must be between 1 and 30" (so 1 and 30 pass, 0 and 31 fail) |
| Models.NewRestaurantPizza | server/models.py:58-83 | building a join row runs the validator: it succeeds exactly when the price is valid, and a built row carries the given ids and price, within [1, 30] |
| Models.ToDict | server/models.py:71-77 | a join row serializes to exactly the keys id, price, pizza_id, restaurant_id, in that order, each holding its column's value, and nothing nested |
| Models.RowsOf | server/models.py:69 | the `restaurant_pizzas` backref of a restaurant: exactly the join rows whose restaurant_id is that restaurant, each unchanged |
| Models.Associations | server/models.py:67-69 | a restaurant's nested join rows: one flat to_dict per row of its backref, in id order, none of them re-embedding the restaurant or the pizza (the exclusions of serialize_rules, server/models.py:31) |
| Models.RestaurantDetail | server/app.py:40-42 | the serialized restaurant has exactly the keys id, name, address (NULL as null) and restaurant_pizzas, the last holding its associations |
| Models.KeyedById | server/models.py:19-61 | every table maps a row's primary key (server/models.py:19, 40, 61) to that row, so each stored join row's to_dict names its own key as id |
| Models.PricesInRange | server/models.py:79-83 | the stored prices are exactly those the validator accepts and returns unchanged |
| Models.ReferencesResolve | server/models.py:64-65 | every join row names a stored pizza and a stored restaurant, so a restaurant that is not stored has no join rows |
| Models.Consistent | server/models.py:61-65 | every row keyed by its id, every price in [1, 30] and, where foreign keys are enforced, both foreign keys of every join row resolve; every stored join row is one the validator would build under its key |
| Models.WithoutRestaurant | server/models.py:24-28 | the cascade keeps exactly the join rows of other restaurants, unchanged |
| Models.CascadeKeepsOtherDetails | server/app.py:49-51 | removing one restaurant's join rows leaves every other restaurant's serialized form unchanged |
| Models.DeleteKeepsConsistent | server/app.py:49-51 | deleting a restaurant with its join rows keeps ids keyed, prices in range and, where enforced, every foreign key resolving |
| Models.InsertKeepsConsistent | server/app.py:79-85 | inserting a row the validator built, with references that resolve wherever they are checked, keeps the store consistent |
| Table.ScanOrder | server/app.py:30 | a full scan yields every stored id exactly once, in ascending order |
| Table.NextId | server/app.py:84-85 | the id given to a committed row is above every id in use, and is one more than the largest, or 1 in an empty table |
| Table.Listing | server/app.py:30-35 | projecting a scan gives one entry per stored row, each the view of the row whose id it carries, ids strictly ascending, and no stored row missing |
| Table.ListingDetermined | server/app.py:28-35 | any two sequences that list the same table through the same view are equal, so a listing is fixed by the store |
| App.Errors | server/app.py:107-110 | a creation failure is a 400 whose body has the single key "errors", holding the messages as an array of strings |
| App.MissingKey | server/app.py:107-108 | the message for an absent key is "Missing key: " followed by the key in single quotes |
| App.RestaurantRow | server/app.py:31-35 | a restaurant list entry has exactly the keys id, name and address, with the stored values |
| App.PizzaRow | server/app.py:59-63 | a pizza list entry has exactly the keys id, name and ingredients, with the stored values |
| App.NameRef | server/app.py:96-103 | a nested pizza or restaurant in a 201 has exactly the keys id and name |
| App.CreatedBody | server/app.py:91-104 | the 201 body begins with the new row's to_dict members, so id, price, pizza_id and restaurant_id hold the row's columns, then "pizza" and "restaurant", each as an id-and-name view of the referenced row |
| App.Store.GetRestaurants | server/app.py:28-35 | 200 with one entry per stored restaurant, in scan order, each with only id, name and address |
| App.Store.GetRestaurant | server/app.py:38-44 | 200 with the restaurant's serialized form when the id is stored; otherwise 404 with exactly {"error": "Restaurant not found"}; reads the store and changes nothing |
| App.Store.GetPizzas | server/app.py:56-63 | 200 with one entry per stored pizza, in scan order, each with only id, name and ingredients |
| App.Store.DeleteRestaurant | server/app.py:46-54 | a stored id: the restaurant and its join rows are removed and the reply is 204 with an empty body; an unknown id: 404 with the not-found body and nothing changes. Either way, afterwards a GET on that id is a 404, pizzas are unchanged, every other restaurant reads as before, and the store stays consistent |
| App.Store.CreateRestaurantPizza | server/app.py:66-110 | reports the first absent key among pizza_id, restaurant_id, price; refuses a price outside [1, 30] with "validation errors" before writing; otherwise adds one row under a fresh id and answers 201 with the nested views; an unresolved reference ends in the generic 400, with the row kept only when foreign keys are not enforced; restaurants and pizzas never change and the store stays consistent |

## Left out

- The Flask, flask_restful and Migrate setup, the `DB_URI` lookup and
  `app.run` (server/app.py:9-21, 114-115) are configuration and I/O. The model
  fixes the database as SQLite. Whether foreign keys are enforced is a
  constant of the store.
- The landing page `index` (server/app.py:24-26) returns a constant string.
- `jsonify` and the encoding of JSON to text are not modelled. Responses are
  `Json` values with members in the order the handler builds its dict. Where
  this model says "in that order" of an object's keys, it describes that
  dict, not the body sent. Flask's default JSON provider sorts keys when it
  encodes (server/app.py:15 changes only `compact`), so the body on the wire
  lists them alphabetically.
- Models.RestaurantDetail: the model assumes that `restaurant.to_dict()`
  returns. Nothing in the source shows that it does for a restaurant with join
  rows: `RestaurantPizza` (server/models.py:58) does not use the serializer
  mixin, and no rule at server/models.py:31 or 52 cuts the `pizzas` and
  `restaurants` relationships (server/models.py:24-28, 45-49) off from each
  other. The function is a simplified stand-in for a successful result. It
  omits the `pizzas` member that the many-to-many relationship would add. It
  does not model the library's handling of `serialize_rules`
  (server/models.py:31, 52, 86-91).
- Models.WithoutRestaurant: this is an assumption. Deleting a restaurant is
  modelled as also deleting its join rows. Whether the ORM does this, or tries
  to set their NOT NULL `restaurant_id` to NULL, depends on how SQLAlchemy
  handles the `secondary` relationship and the backref (server/models.py:24-28,
  69). That code is not part of this model.
- Table.ScanOrder: this is an assumption. A query without ORDER BY promises no
  order. Ascending id is what SQLite's scan of a rowid table gives.
- Table.ScanOrder, Table.NextId: both are SQLite's rules for a table keyed by
  an INTEGER primary key. The connection string (server/app.py:10) can name
  another database. On that database, neither the id a new row gets nor the
  order of a listing is modelled.
- Table.NextId: SQLite's fallback when the largest id is already the 64-bit
  maximum (it picks an unused id at random) is not modelled. Ids and prices
  are unbounded integers, not 64-bit columns.
- Transactions are not modelled. This covers the session state after a failed
  commit and any rollback, beyond "the failed commit wrote nothing".
- Python's dynamic typing is not modelled. The request body is a map from key
  to integer. A body that is not a JSON object, a non-integer price or id, and
  a request that is not JSON are outside the model. Their outcomes differ. A
  string or null price raises TypeError at the range check (server/app.py:75)
  and gets the generic 400. A float or boolean price within [1, 30] passes
  both range checks (server/app.py:75, server/models.py:81) and is committed.
  A null id fails its NOT NULL constraint at the commit. What a string id does
  depends on the database's typing of the column and is not modelled.
- The `<int:id>` route converter only matches non-negative integers. The
  handlers here accept any integer id.
- The `__repr__` methods and the constraint naming convention do not affect
  behaviour.
